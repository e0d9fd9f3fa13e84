# Webmo device client, modelled in Dafny

`webmo.Webmo` is a small Java client for the Webmo rotary actuator. The device's control plane is HTTP. This project models that client and proves properties of the model. The client:

- builds a base address (`http://webmo.local/api` by default, or `http://<host>/api` for a given host);
- turns each command (`rotate`, `rotateTo`, `rotateBy`, `stop`, `lock`) into a form-encoded POST against an action path, with an ordered list of name/value pairs;
- turns each sensor query (`rotation`, `rotation_raw`, `temperature`) into a GET;
- converts the 12-bit encoder count the device reports into degrees with the Java `int` expression `count * 360 / 4096`;
- keeps the raw body of the last exchange in a single mutable slot, `content`, which `getContent()` returns.

Modules, one per concern:

| file | module | what it holds |
|---|---|---|
| `wrappers.dfy` | `Wrappers` | `Option` (a Java reference that may be null) and `Result` |
| `java_int.dfy` | `JavaInt` | Java `int` (`Int32`), wrap-around multiplication, division rounding toward zero |
| `java_text.dfy` | `JavaText` | `Integer.toString` and `Boolean.toString`, each with a parser that accepts exactly its outputs |
| `form_encoding.dfy` | `FormEncoding` | the `application/x-www-form-urlencoded` serialiser (WHATWG URL Standard, section 5.2, with ISO-8859-1 as the byte encoding) and its parser, proved inverse |
| `requests.dfy` | `Requests` | the `Request` value (`Get(url)` / `Post(url, pairs)`), one function per operation, and a decoder from requests back to commands |
| `rotation.dfy` | `Rotation` | the count-to-degree conversion and its properties |
| `webmo.dfy` | `Webmo` | the `Client` class (immutable `address`, mutable `content`), its constructors and operations |

The network and the JSON library are parameters:

- Each client operation takes the transport's answer `response: Option<string>`. `Some(body)` means the body was read, and it overwrites `content`. `None` means an exception was thrown before the body was read. The client only prints that exception, so `content` keeps its old value.
- `Rotation` and `RotationRaw` also take `getInt: (string, string) -> Option<Int32>`. It stands for `new JSONObject(body).getInt(name)`, with `None` where that call throws.
- Two `ghost` fields record the history: `requests` holds every request sent and `outcomes` the transport's answer to each. `Valid()` ties `content` to `LastBody(None, outcomes)`, and the lemmas about `LastBody` say which body the slot holds after any run of exchanges.

Two behaviours of the code shape the model:

- Transport failures are caught and only printed. So a command reports nothing, and a query after a failed exchange parses the stale body (`Client.Rotation`'s last ensures).
- The slot is left unchanged when the exchange fails before the body is read.
- Before any body has been read, `content` is Java `null`, modelled as `None`. A query in that state throws from `new JSONObject(null)`, modelled as `Failure(NullContent)`.

## Model

| member | source | states |
|---|---|---|
| `Webmo.Client.constructor` | src/webmo/Webmo.java:38-40 | the default client's address is exactly `http://webmo.local/api` and no body has been stored yet |
| `Webmo.Client.WithHost` | src/webmo/Webmo.java:48-50 | the host client's address is `HostAddress(host)`, with no check on the host, and no body has been stored yet |
| `Webmo.HostAddress` | src/webmo/Webmo.java:49 | the address is `http://`, then the host unchanged, then `/api`: the host can be read back from position 7 to 4 before the end |
| `Webmo.HostAddressInjective` | src/webmo/Webmo.java:49 | different hosts give different addresses |
| `Webmo.HostAddressExample` | src/webmo/Webmo.java:49 | host `example.local` gives `http://example.local/api` |
| `Webmo.Client.GetContent` | src/webmo/Webmo.java:154-156 | returns the stored body, or None if none has been stored |
| `Webmo.Client.Exchange` | src/webmo/Webmo.java:158-197 | a body that was read becomes `content`, unmodified; a failure before the read leaves `content` as it was; the address never changes; the request is appended to `requests` and the transport's answer to `outcomes` |
| `Webmo.Slot` | src/webmo/Webmo.java:165-166 | after one exchange the slot holds the body read, or the previous value if none was read |
| `Webmo.LastBodyIsLatest` | src/webmo/Webmo.java:166 | after any run of exchanges the slot holds the body of the latest exchange that read one, however many failed after it |
| `Webmo.LastBodyAllFailed` | src/webmo/Webmo.java:173-175 | a run in which every exchange failed before reading leaves the slot as it was |
| `Webmo.LastBodyAppend` | src/webmo/Webmo.java:187 | two runs of exchanges, one after the other, leave the slot as the joined run does |
| `Webmo.Client.Rotate` | src/webmo/Webmo.java:60-62 | sends `CommandRequest(address, Rotate(speed))` and updates the slot as an exchange does |
| `Webmo.Client.RotateTo` | src/webmo/Webmo.java:74-79 | sends `CommandRequest(address, RotateTo(degree, speed, absRange))` and updates the slot as an exchange does |
| `Webmo.Client.RotateBy` | src/webmo/Webmo.java:89-93 | sends `CommandRequest(address, RotateBy(degree, speed))` and updates the slot as an exchange does |
| `Webmo.Client.Stop` | src/webmo/Webmo.java:102-104 | sends `CommandRequest(address, Stop(smooth))` and updates the slot as an exchange does |
| `Webmo.Client.Lock` | src/webmo/Webmo.java:112-114 | sends `CommandRequest(address, Lock(smooth))` and updates the slot as an exchange does |
| `Webmo.Client.Rotation` | src/webmo/Webmo.java:121-125 | sends the rotation GET, updates the slot, then reads field `rotation` of the slot as degrees; after a failed exchange it reads the stale previous body |
| `Webmo.Client.RotationRaw` | src/webmo/Webmo.java:132-136 | as `Rotation`, with field `rotation_raw` |
| `Webmo.Client.Temperature` | src/webmo/Webmo.java:143-144 | sends the temperature GET and updates the slot as an exchange does |
| `Webmo.ReadDegrees` | src/webmo/Webmo.java:123-124 | a reading succeeds exactly when there is a body and it has an integer under the field; the reading is then that count in degrees; with no body it fails with `NullContent` |
| `Webmo.MockedRotation` | src/webmo/Webmo.java:121-136 | a body with `rotation` 1024 and `rotation_raw` 512 reads as 90 and 45 degrees |
| `Requests.RotateRequest` | src/webmo/Webmo.java:60-62 | a POST to `address + "/rotate/forever"` with the one pair `speed`, whose value parses back to `speed` |
| `Requests.RotateToRequest` | src/webmo/Webmo.java:74-79 | a POST to `address + "/rotate"` with names exactly `degree`, `speed`, `absRange`, `absolute` in that order; the first three values parse back to the arguments; the last is `"true"` |
| `Requests.RotateByRequest` | src/webmo/Webmo.java:89-93 | a POST to `address + "/rotate"` with names exactly `degree`, `speed`, `absolute` (no `absRange`); the first two values parse back to the arguments; the last is lower-case `"false"` |
| `Requests.StopRequest` | src/webmo/Webmo.java:102-104 | a POST to `address + "/stop"` with the one pair `smooth`, whose value parses back to `smooth` |
| `Requests.LockRequest` | src/webmo/Webmo.java:112-114 | a POST to `address + "/lock"` with the one pair `smooth`, whose value parses back to `smooth` |
| `Requests.RotationRequest` | src/webmo/Webmo.java:122 | a GET of `address + "/sensor/rotation"` with no body, which no decoder reads as a command |
| `Requests.TemperatureRequest` | src/webmo/Webmo.java:144 | a GET of `address + "/sensor/temperature"` with no body, which no decoder reads as a command |
| `Requests.CommandRequest` | src/webmo/Webmo.java:60-114 | every command's request is a POST that `Decode` reads back as that same command |
| `Requests.CommandRequestInjective` | src/webmo/Webmo.java:60-114 | two different commands never send the same request |
| `Requests.CommandBodyIsPlain` | src/webmo/Webmo.java:178-184 | every name and value a command sends needs no escaping, and the form parser recovers the pairs in order from the body |
| `Requests.RotateToBody` | src/webmo/Webmo.java:74-79 | for every argument, the `rotateTo` body is `degree=D&speed=S&absRange=R&absolute=true`, with each value in decimal |
| `Requests.RotateByBody` | src/webmo/Webmo.java:89-93 | for every argument, the `rotateBy` body is `degree=D&speed=S&absolute=false`, with each value in decimal |
| `Requests.RotateToExample` | src/webmo/Webmo.java:74-79 | `rotateTo(90, 50, 5)` sends exactly `degree=90&speed=50&absRange=5&absolute=true` |
| `Requests.RotateByExample` | src/webmo/Webmo.java:89-93 | `rotateBy(-45, 20)` sends exactly `degree=-45&speed=20&absolute=false` |
| `JavaText.NatToDecimal` | src/webmo/Webmo.java:75-77 | the digits have no leading zero and denote the number |
| `JavaText.IntToDecimal` | src/webmo/Webmo.java:61 | `Integer.toString`: its output parses back to the same integer |
| `JavaText.DecimalUnique` | src/webmo/Webmo.java:75-77 | a string parses to `i` if and only if it is the decimal form of `i`, so the decimal form is unique |
| `JavaText.CanonicalIsDecimal` | src/webmo/Webmo.java:90-91 | every canonical digit string is the decimal form of the number it denotes |
| `JavaText.BoolToString` | src/webmo/Webmo.java:78 | `Boolean.toString`: the output is `"true"` or `"false"` and parses back to the argument |
| `JavaText.ParseInt32Inverse` | src/webmo/Webmo.java:75-77 | the `int` reader accepts a string with value `i` exactly when the string is `Integer.toString(i)`, so every rendered argument reads back as itself and nothing else does |
| `FormEncoding.Escape` | src/webmo/Webmo.java:184 | a string of unreserved characters is left unchanged; the escaped output never contains `&` or `=` |
| `FormEncoding.UnescapeEscape` | src/webmo/Webmo.java:184 | decoding undoes escaping for every ISO-8859-1 string |
| `FormEncoding.ParseBody` | src/webmo/Webmo.java:184 | parsing a body gives back, in order, every ISO-8859-1 list of pairs it was serialised from |
| `FormEncoding.Latin1Byte` | src/webmo/Webmo.java:184 | a character below 256 is its own ISO-8859-1 byte; every byte is below 256 |
| `Rotation.ToDegrees` | src/webmo/Webmo.java:124 | where `count * 360` does not overflow, the result is `count * 360 / 4096` rounded toward zero (the remainder lies between the result times 4096 and the next multiple) |
| `Rotation.OneRevolution` | src/webmo/Webmo.java:124 | each count from 0 to 4095 reads as a degree from 0 to 359 |
| `Rotation.ToDegreesMonotone` | src/webmo/Webmo.java:124 | where nothing overflows, a larger count never reads as fewer degrees |
| `Rotation.ToDegreesOdd` | src/webmo/Webmo.java:124 | rounding is toward zero, so `-c` reads as minus the reading of `c` |
| `Rotation.FullTurn` | src/webmo/Webmo.java:124 | from a non-negative count below the overflow bound, 4096 more counts read as exactly 360 more degrees |
| `Rotation.SensorExamples` | src/webmo/Webmo.java:124 | 1024 reads as 90, 512 as 45, 4095 as 359, and -1 as 0 |
| `Rotation.OverflowExample` | src/webmo/Webmo.java:124 | count 5965233 overflows `count * 360` and reads as -524287 |
| `JavaInt.Wrap` | src/webmo/Webmo.java:124 | the result is a Java `int` congruent to the input modulo 2^32, and equal to it when the input already fits |
| `JavaInt.Mul` | src/webmo/Webmo.java:124 | Java `int` multiplication: the product reduced to 32 bits |
| `JavaInt.TruncDivSpec` | src/webmo/Webmo.java:135 | Java `/`: the remainder is smaller than the divisor and has the dividend's sign |
| `JavaInt.Div` | src/webmo/Webmo.java:135 | Java `int` division by a positive divisor rounds toward zero |

## Left out

- Apache HttpClient is not part of this model: client creation, `execute`, reading and consuming the entity, and `close()` (src/webmo/Webmo.java:160-172, 180-193). The transport is the `response` parameter.
- An exception thrown after the body is read, from `consume` or `close`, leaves the same state as a successful exchange. The model does not tell the two apart.
- The `Content-Type: application/x-www-form-urlencoded` header is the constant `Requests.ContentType`. It is the same on every request and is not stored in each `Request` value.
- `org.json` is not part of this model. `new JSONObject(body).getInt(name)` is the `getInt` parameter, and it decides which bodies and numbers it accepts.
- Webmo.Client.Temperature: does not return the temperature reading. The source's `(float) json.getDouble(...)` is a floating-point narrowing (src/webmo/Webmo.java:145-146), which is not modelled. Only the request and the slot update are.
- JavaInt.Div: requires a positive divisor. The client only ever divides by 4096. Java's zero-divisor exception and the `MinInt / -1` overflow are not modelled.
- Rotation properties other than `ToDegrees`'s exact range and `OverflowExample` hold only where `count * 360` fits in an `int` (|count| <= 5965232). Beyond that, the wrap-around is modelled but has no lemmas.
- Webmo.Client.WithHost: `host` is a `string` and cannot be null. In Java a null `hostName` makes the address `http://null/api` (src/webmo/Webmo.java:49); that case is not modelled.
- `printStackTrace()` logging (src/webmo/Webmo.java:174, 195) is output only and is not modelled.
- The source does not synchronise `content`, so concurrent use from several threads races. The model is sequential.
- The HTTP status code is never inspected by the source, so there is nothing to model for it.
- FormEncoding.Escape: escapes by the unreserved set of the WHATWG URL Standard, section 5.2. Characters outside ISO-8859-1 become `?` (byte 0x3F). The library's own table of safe characters is not part of this model. Every character the client actually sends is an ASCII letter, a digit or `-`, and those are unreserved in either table.
