# rust-webserver: the connection handler

This project models `handle_connection` in `src/main.rs` of rust-webserver,
a small HTTP server written to learn Rust. The handler reads the request
lines up to the first empty line, picks a status line and an HTML file from
the request line, and writes a response. The response has the status line, a
`Content-Type` field, a `Content-Length` field, an empty line and the file.

The model keeps the handler's decisions and drops its I/O:

- The lines the `BufReader` yields are a `seq<string>`.
- `Path::exists` is a predicate `pathExists: string -> bool`.
- `fs::read_to_string` is a function `read: string -> seq<byte>` that gives
  the file's bytes.
- The response is the byte sequence `write_all` would send.
- Each of the handler's two indexing panics becomes an `Err` value of the
  datatype `Panic`:
  - `http_request[1]` panics when fewer than two lines come before the empty
    line;
  - `request_tokens[1]` panics when the request line holds no space.

The model has four modules:

- `Wrappers`: `Option` and `Result`.
- `Text`: bytes and strings.
  - `Encode` is the UTF-8 encoding that `as_bytes` gives.
  - `Split` is `str::split` on one character, proved against `Join`.
  - `Decimal` is how `format!` writes a `usize`.
- `Http`: the message layout of section 2.1 of RFC 9112.
  - `Serialize` writes a start-line, field lines, an empty line and a body,
    each line ended by CRLF.
  - `Parse` reads a message back line by line.
  - `BodyAfterHead` takes what follows the first CRLF CRLF.
  - `ContentLength` reads the decimal `Content-Length` field (section 8.6 of
    RFC 9110).

  These model no code of the handler. They are the reference reader that
  the handler's output is proved against: the response parses back to the
  status line, the file and the file's length. Their rows below cite the
  lines whose output they read.
- `Server`: the handler itself.
  - `CollectHeaders` is the `take_while`.
  - `Route` is the route decision as a function. `SelectRoute` is the same
    decision written with the source's mutable 404 defaults, and it is proved
    equal to `Route`.
  - `FormatResponse` builds the response bytes.
  - `Handle` specifies the whole handler, and the method `HandleConnection`
    follows the source's statements and is proved equal to it.

Two consequences of the source show up in the lemmas as they are:

- Nothing confines the requested path to the `html` directory. A `GET`
  request for `/../x` looks up `html/../x`, and the file is served whenever it
  exists (`Server.RouteGetTarget`).
- Two spaces after `GET` make the target empty, so the path looked up is
  `html` itself (`Server.RouteDoubleSpace`). In the repository `html` is a
  directory, so `Path::exists` holds and the following `read_to_string`
  panics. The model does not show that panic, because it does not relate
  `pathExists` to `read` (see "## Left out").

## Model

| member | source | states |
|---|---|---|
| Server.CollectHeaders | src/main.rs:39-43 | The collected request is a prefix of the input lines. None of its lines is empty. The input either ends after it or continues with an empty line. |
| Server.CollectHeadersUnique | src/main.rs:39-43 | Any prefix with those three properties is the collected request, so `take_while` is fully characterised. |
| Text.Split | src/main.rs:52 | Splitting at spaces gives at least one token. No token holds the separator. Joining the tokens with it gives the line back. There are two or more tokens exactly when the separator occurs. |
| Text.SplitJoin | src/main.rs:52 | Splitting separator-free tokens that were joined gives the tokens back. |
| Text.SplitPrefix | src/main.rs:52-53 | A separator-free text followed by the separator becomes the first token, and the rest is split on its own. |
| Text.SplitFirstTwo | src/main.rs:52-54 | In `method SP target` followed by nothing or by more text starting with a space, the first token is the method and the second is the target. |
| Server.Route | src/main.rs:51-80 | Route selection fails exactly when the request line holds no space, and the failure is the `request_tokens[1]` panic. |
| Server.SelectRoute | src/main.rs:51-80 | The imperative selection, with its 404 defaults overwritten when the file exists, gives exactly `Route`'s selection. |
| Server.RouteFixed | src/main.rs:61-66 | `GET / HTTP/1.1` and `GET /sleep HTTP/1.1` get status 200 and `html/index.html`, whichever files exist. |
| Server.RouteOtherMethod | src/main.rs:67-79 | Every request line whose method is not `GET` gets status 404 and `html/404.html`; such a line is never one of the fixed two. |
| Server.RouteGetTarget | src/main.rs:67-79 | Any other `GET` line serves `"html" + target` with status 200 when that path exists, and the 404 page otherwise. The target is the text between the first and second spaces. |
| Server.RouteDoubleSpace | src/main.rs:52-54 | After `GET` plus two spaces the target is empty, and the path looked up is `html`. |
| Server.RouteShapes | src/main.rs:55-80 | Every selection is the index page, an existing requested file with status 200, or the 404 page. A 200 status means a fixed request line or an existing file. |
| Server.RouteStatusIsLine | src/main.rs:55-80 | Neither status line the router can choose holds CR or LF. |
| Server.FormatResponse | src/main.rs:84-88 | The response is longer than the file contents and ends with them unchanged. |
| Server.FormatResponseMessage | src/main.rs:84-88 | The response is the serialised HTTP message with the status line as start-line, the `Content-Type` and `Content-Length: <length>` field lines, and the contents as body. |
| Server.ContentTypeIsLine | src/main.rs:86 | The `Content-Type` field line is non-empty and holds no CR or LF. |
| Server.ContentLengthWellFormed | src/main.rs:87 | The `Content-Length: <length>` field line is non-empty and holds no CR or LF, for every length. |
| Server.ContentTypeIsNotLength | src/main.rs:50 | The `Content-Type` field line does not begin with `Content-Length: `. |
| Server.ResponseContentLength | src/main.rs:84-87 | Read back, the response's fields carry a `Content-Length` equal to the number of body bytes. |
| Server.ResponseFraming | src/main.rs:84-88 | When the status line holds no CR or LF, the response parses as one message with that start-line, the contents as body and a matching `Content-Length`. |
| Server.ResponseBodyAfterHead | src/main.rs:82-88 | A reader that stops at the first CRLF CRLF of the response finds exactly the contents after it. |
| Server.Handle | src/main.rs:39-88 | The handler fails exactly when fewer than two lines precede the empty line (`MissingHeaderLine`) or the request line holds no space (`MissingRequestTarget`). |
| Server.HandleResponse | src/main.rs:83-90 | Every response written parses as a message whose start-line is the chosen status line and whose body is the chosen file. Its `Content-Length` is the file's length, and its body is what follows the first CRLF CRLF. |
| Server.HandleConnection | src/main.rs:36-90 | Collecting the lines, selecting the route and formatting the response, step by step as written, gives exactly `Handle`'s result. |
| Text.Utf8 | src/main.rs:90 | A character encodes to one to four bytes. An ASCII character encodes to its own code. Every byte of a non-ASCII character is 0x80 or above. |
| Text.Encode | src/main.rs:90 | The encoding is at least as long as the string. |
| Text.EncodeConcat | src/main.rs:85-88 | Encoding distributes over the concatenation `format!` performs. |
| Text.EncodeAsciiByte | src/main.rs:90 | An ASCII byte occurs in the encoding exactly when its character occurs in the string. |
| Text.EncodeAscii | src/main.rs:90 | An ASCII string encodes to one byte per character, each its own code. |
| Text.Decimal | src/main.rs:84-87 | The length is written as one or more decimal digits, with a leading `0` only for zero. |
| Http.ParseDecimalOfDecimal | src/main.rs:84-87 | Reader of the response, not handler code. Reading back the decimal digits of a length gives the length. |
| Http.ParseDecimal | src/main.rs:87 | Reader of the response, not handler code. A field value parses as a number exactly when it is a non-empty run of digits. |
| Http.IndexOf | src/main.rs:85-88 | Reader of the response, not handler code. The search returns the first occurrence at or after the start, or none when there is no occurrence. |
| Http.ParseSerialize | src/main.rs:85-88 | Reader of the response, not handler code. A message whose lines hold no CR or LF, with no empty field line, parses back from its serialisation. |
| Http.SerializeParse | src/main.rs:85-88 | Reader of the response, not handler code. Whatever parses is exactly the serialisation of the message it parses to. |
| Http.BodyAfterHeaderEnd | src/main.rs:85-88 | Reader of the response, not handler code. In such a message, the first CRLF CRLF ends the last field line, and the body follows it. |
| Http.FieldValue | src/main.rs:87 | Reader of the response, not handler code. A field value that is found comes from a field line that begins with the name. |
| Http.FieldValueFirst | src/main.rs:87 | Reader of the response, not handler code. The lookup finds nothing exactly when no field line begins with the name, and a value it finds comes from the first line that does. |

## Left out

- The thread pool of `src/lib.rs`, which runs each connection on a worker thread. Concurrency is outside this model, so `ThreadPool`, `Worker` and their channel are not modelled.
- `main` is not modelled: it binds the listener, accepts connections and hands them to the pool, which is all I/O.
- `thread::sleep` after `GET /sleep HTTP/1.1`: timing is not modelled. Only the selection it leads to is.
- `println!` of the request and of a missing file: output is not modelled. Only the panic on a missing second line that the first `println!` causes is kept.
- `write_all` and its failure: the model stops at the bytes to be written.
- The `unwrap` panics on I/O errors are not modelled: reading a line, reading a file that cannot be read or is not UTF-8, and writing the response. `read` is a total function.
- `Path::exists` is also true for directories, and reading a directory then fails. The model does not relate `pathExists` to `read`.
- `BufRead::lines` splits the stream at LF and drops a CR before it. The model takes its lines as given.
- The file contents are bytes, not a `String`. `contents.len()` counts bytes, so this changes no length.
- Http.ContentLength: it recognises only a field line that begins with exactly `Content-Length: `. It does not fold case or skip optional whitespace as section 5 of RFC 9110 allows, because the handler writes only this form.
