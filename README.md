# sftp-wrapper-client, modelled in Dafny

`sftp-wrapper-client` drives the interactive `sftp` program through a
pseudo-terminal. Its `Client` class (src/index.js) has two pieces of real
logic, both modelled here:

- **The terminal-output collector** (`_collectData`). The client's only
  mutable text state is `this._collector`. Each chunk read from the terminal
  is one of three kinds. A chunk ending in `password: ` raises a `password`
  event and is not buffered. A chunk ending in `sftp> ` is appended, and then
  the whole buffer is split on `\r`, the buffer is emptied, and the pieces go
  out as one `response` event. Any other chunk is appended silently.
- **The synchronous part of `connect`**. The configuration object is
  normalised: the port defaults to 22 through `||`, and the three flags are
  coerced with `?:`. A private key given as a `Buffer` is rejected. The
  argument vector for `sftp` is then pushed in a fixed order: `-q`,
  `-P port`, `-4`, `-6`, `-C`, `-i key`, and finally `user@host`.

`end()` resolves `true` at once when no process was spawned.

Files:

- `wrappers.dfy` has `Option` and `Result`.
- `js_strings.dfy` has the JavaScript string operations the client uses. A
  `$`-anchored regular expression without the `m` flag is a suffix test.
  `split` with one separator never returns an empty list and keeps empty
  pieces. The module proves that split and join are inverse to each other.
- `collector.dfy` has the collector as a pure transition function `Step`, and
  `Run`, the fold of `Step` over a sequence of chunks. `StepSpec` states the
  per-chunk properties. The other lemmas state the whole-stream properties
  about `Run`.
- `invocation.dfy` models JavaScript values and truthiness, the normalised
  configuration and the argument vector. `BuildArgs` pushes the vector one
  element at a time, like the source. `ParseArgs` reads a vector laid out in
  the fixed order. `BuildArgs` is proved against it: parsing the vector it
  builds gives back exactly the options the configuration asks for.
- `session.dfy` has the `Client` class. Its fields are `sftp` (whether a
  process handle is held), `config` and `collector`. `CollectData` updates
  `collector` in place and is proved equal to `Step`. `Connect` and `End`
  return the synchronous outcome of their promises.

The model follows the code as written:

- Response lines are the raw `split("\r")` of the buffer. The code strips no
  banner text and no prompt, and it does not drop blank lines. Lines after
  the first usually start with `\n`, and the last line ends with `sftp> `.
- Both prompts are tested against the end of the incoming chunk, not against
  a line in the buffer. A prompt split across two chunks is therefore not
  recognised until a later chunk ends with it.
- `end()` with a live process writes `exit\r` and waits for the exit event.
  It never clears `this.sftp`, so `End` leaves `sftp` set.

## Model

| member | source | states |
|---|---|---|
| `JsStrings.EndsWith` | src/index.js:28-31 | the `/password: $/` and `/sftp> $/` tests: the chunk ends with the literal text; its meaning is proved in `EndsWithConcat` |
| `JsStrings.EndsWithConcat` | src/index.js:28-31 | a string ends with a suffix exactly when it is some text followed by that suffix |
| `JsStrings.Split` | src/index.js:34 | `split("\r")` never returns an empty list |
| `JsStrings.SplitSeparatorFree` | src/index.js:34 | no piece of a split contains the separator |
| `JsStrings.JoinSplit` | src/index.js:34 | joining the pieces of a split with the separator gives back the original string |
| `JsStrings.SplitJoin` | src/index.js:34 | splitting a join of separator-free pieces gives back those pieces, so a split is the unique separator-free decomposition |
| `JsStrings.SplitAppend` | src/index.js:32-34 | appending separator-free text to a string only extends the last piece of its split |
| `JsStrings.SplitLastEndsWith` | src/index.js:31-34 | when a string ends with separator-free text, the last piece of its split ends with that text |
| `Collector.PromptsExclusive` | src/index.js:28-31 | no chunk ends in both `password: ` and `sftp> `; a chunk completes a response exactly when it ends in `sftp> ` |
| `Collector.Step` | src/index.js:24-41 | one call of `_collectData`: the event raised and the new buffer; its contract is stated in `StepSpec` |
| `Collector.StepSpec` | src/index.js:28-40 | a password event fires exactly when the chunk ends in `password: `, and then the buffer is unchanged; a response fires exactly for a prompt chunk, and the buffer becomes empty; the lines join back to old buffer + chunk, contain no `\r`, are never empty, and the last one ends in `sftp> `; otherwise no event fires and the buffer becomes old buffer + chunk |
| `Collector.Run` | src/index.js:28-40 | feeding n chunks yields exactly n event slots, one per call |
| `Collector.RunPrefix` | src/index.js:24-41 | the i-th event of a run is what the i-th chunk produces from the buffer left by the chunks before it |
| `Collector.RunBuffer` | src/index.js:32-39 | nothing is lost: after any run the buffer is every non-password chunk since the last response (or the initial buffer plus all of them if there was none) |
| `Collector.ResponsesAtPrompts` | src/index.js:28-37 | in any run, chunk i raises a response exactly when it ends in `sftp> ` and not in `password: `, and a password event exactly when it ends in `password: ` |
| `Collector.ResponseRoundTrip` | src/index.js:31-37 | the response raised by a prompt chunk joins back with `\r` to exactly the non-password chunks since the previous response, this prompt chunk included; its lines are non-empty and the last one ends in `sftp> ` |
| `Collector.ResponsesMatchPrompts` | src/index.js:28-40 | over any run, the number of responses equals the number of chunks ending in `sftp> ` |
| `Collector.QuietRun` | src/index.js:38-40 | a stream with no command prompt raises no response, and the buffer keeps all non-password text |
| `Invocation.Truthy` | src/index.js:78-85 | the falsy values are exactly `undefined`, `null`, `false`, `0` and `""` |
| `Invocation.KeyTruthy` | src/index.js:85 | a key is falsy exactly when it is a plain `undefined`, `null`, `false`, `0` or `""`; a Buffer is always truthy |
| `Invocation.Normalise` | src/index.js:76-84 | every falsy port becomes 22 (`config.port \|\| 22`), and is kept when it is truthy; `forceIPv4`, `forceIPv6` and `compress` are true exactly when the given value is truthy; host, username and password are copied unchanged; no key is set yet |
| `Invocation.Configure` | src/index.js:85-90 | the configuration is rejected with `privateKey must be a string path` exactly when the key is a Buffer; otherwise it is the normalised configuration, with the key added exactly when it is truthy |
| `Invocation.Digits` | src/index.js:115 | the decimal rendering of a natural number is never empty |
| `Invocation.DigitsAreDecimal` | src/index.js:115 | every character of the rendering is a decimal digit |
| `Invocation.DigitsLead` | src/index.js:115 | the rendering starts with a digit, and with `0` only for 0 |
| `Invocation.DigitsValue` | src/index.js:115 | the rendering read back as a decimal numeral gives the number |
| `Invocation.ToString` | src/index.js:115 | `String(v)` as a template literal renders it; its numeric case is characterised in `NumberRoundTrip` |
| `Invocation.NumberRoundTrip` | src/index.js:115 | a rendered integer reads back as the same integer, and shows a minus sign exactly when it is negative |
| `Invocation.Destination` | src/index.js:115 | `${username}@${host}` is the rendered user name, an `@`, then the rendered host |
| `Invocation.ParseLayout` | src/index.js:97-115 | a vector laid out as `-q`, optional `-P port`, `-4`, `-6`, `-C`, optional `-i key`, then `user@host`, reads back as exactly the options it was built from |
| `Invocation.BuildArgs` | src/index.js:97-115 | the vector starts with `-q` and ends with `username@host`; `-P port` appears exactly when the port is not 22 (by `!==`); `-4`, `-6`, `-C` and `-i key` appear exactly when their option is set, in that order |
| `Session.Client.constructor` | src/index.js:17-22 | a new client has no process, an empty configuration and an empty collector buffer |
| `Session.Client.CollectData` | src/index.js:24-41 | the event and the new buffer are those of `Step`, case by case |
| `Session.Client.Connect` | src/index.js:76-125 | a Buffer key rejects with the key error and leaves the process handle alone; otherwise the stored configuration is `Configure`'s; a failing spawn rejects with its message; a successful one holds a process and was given the argument vector `BuildArgs` promises |
| `Session.Client.End` | src/index.js:164-183 | without a process it resolves `true`; with one it sends `exit\r` |

## Left out

- Spawning `sftp` through `node-pty` is a foreign library and process creation. `Connect` takes the spawn's outcome as a parameter.
- Event-emitter wiring is I/O and callback plumbing: the `data`, `password` and `response` listeners, `removeAllListeners`, and writing the password or `exit\r` to the terminal. Events are values returned by `CollectData`.
- The `error` and `exit` listeners that throw are asynchronous process-failure handling.
- Promise timing is left out. This covers `connect` resolving `true` on the first response and `end` resolving on the exit event. Only the synchronous outcomes are modelled.
- `maybeDebug`, the `debug` option and the `JSON.stringify` logging are a diagnostic side channel.
- `cwd`, `list`, `exists` and `realPath`, with directory-entry parsing and timestamp reconstruction, have no implementation in src/index.js. They are not part of this model.
- A `config` that is not an object (where reading `config.host` throws) is not modelled. Configuration values are restricted to `undefined`, `null`, booleans, integers and strings, plus a Buffer for `privateKey`. Floating-point numbers and `NaN` are not modelled.
- Invocation.BuildArgs: the port and the key are pushed as raw JavaScript values, so the vector is a sequence of values. How `node-pty` turns them into strings is not modelled.
- Invocation.ToString: numbers are rendered as plain decimals. JavaScript's exponent notation, used for magnitudes of 10^21 and above, is not modelled.
