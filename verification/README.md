# Key-value command dispatch and `key=value` argument parsing

This project models two small pure pieces of a Rust repository in Dafny.

1. **The key-value server's dispatcher** (`kv_server`). `dispatch` looks at the optional payload of a `CommandRequest`. `Hget`, `Hgetall` and `Hset` each go to their own handler, together with the store. A missing payload becomes an `InvalidCommand("Request has no data")` error. Any other payload becomes an `Internal("Not implemented")` error. `Service::new` wraps a store, and `Service::execute` forwards each command to `dispatch` with that store.
   The handler bodies and the storage backend are not part of this model. The store is an abstract type `S`. The three handlers are function parameters (`Handlers<S>`). Rust's `Storage` is shared behind `&` and mutated through interior mutability. So a handler here returns its response together with the store as it leaves it (`Outcome<S>`). That makes "the store is not touched" something the model can state.

2. **The HTTP client's argument parser** (`httpie`). `KvPair::from_str` splits a string on `'='`. It takes the first segment as the key and the second as the value, fails if a segment is missing, and drops the rest. `RustStr.Split` models Rust's `str::split` with a `char` pattern. It always yields at least one segment, and segments may be empty (`""` gives `[""]`, `"a="` gives `["a", ""]`). `RustStr.Join` is its inverse. The loop in `post` folds the parsed pairs into a map, and a later pair overwrites an earlier one with the same key.

Files: `wrappers.dfy` (`Option`, `Result`), `rust_str.dfy` (split iterator), `httpie.dfy` (parser and body building), `kv_service.dfy` (dispatcher and service).

## Model

| member | source | states |
|---|---|---|
| KvService.Dispatch | kv_server/src/service/mod.rs:40-48 | An `Hget`, `Hgetall` or `Hset` payload yields exactly that handler's outcome on the same store. A missing payload yields `InvalidCommand("Request has no data")`, and any other payload yields `Internal("Not implemented")`. On both error paths the store is returned unchanged. |
| KvService.HandlerReachedIffHandled | kv_server/src/service/mod.rs:41-46 | The store is handed to a handler exactly when the payload is `Hget`, `Hgetall` or `Hset`. Only for those payloads can two handler sets give different outcomes; this direction is shown by building two handler sets that answer differently. |
| KvService.OnlyMatchingHandlerConsulted | kv_server/src/service/mod.rs:42-44 | Routing is exact. Two handler sets that give the same outcome on the one call the payload leads to (its kind's handler, applied to its parameters and the store) give the same dispatch outcome, whatever else the handlers do. |
| KvService.ErrorKindsDistinct | kv_server/src/service/mod.rs:45-46 | An unhandled command always gets an error. That error is `InvalidCommand` exactly when the payload is missing, and `Internal` exactly when a payload is present. A not-implemented payload is never reported as invalid. |
| KvService.New | kv_server/src/service/mod.rs:24-30 | The service holds exactly the store it was built with. |
| KvService.Execute | kv_server/src/service/mod.rs:32-37 | `execute` answers with `dispatch`'s response on the service's own store, and keeps the store `dispatch` leaves behind. The log call has no effect. An unhandled command leaves the service unchanged. |
| KvService.ExecuteOnNew | kv_server/src/service/mod.rs:24-37 | A service built by `new(store)` answers a command exactly as `dispatch(cmd, store)` does. |
| KvService.ExecuteAll | kv_server/src/service/mod.rs:32-37 | A run of `execute` calls on one service gives exactly one response per command. A run made only of unhandled commands leaves the service as it was. |
| KvService.UnhandledCommandIsTransparent | kv_server/src/service/mod.rs:45-46 | An unhandled command inserted anywhere in a run adds only its own error response. It changes no other command's response and not the final store. |
| RustStr.Split | httpie/src/main.rs:65 | `split('=')` yields at least one segment. No segment contains the separator, and joining the segments with the separator gives back the input. There is exactly one segment iff the input has no separator. |
| RustStr.Next | httpie/src/main.rs:68-69 | `next()` is `None` exactly when no segments remain. Otherwise it returns the front segment, and the front segment followed by what remains is the sequence it was given. |
| RustStr.SplitAfterFirst | httpie/src/main.rs:65 | A separator after a separator-free prefix closes exactly that one segment. The remaining segments are those of the text after it. |
| RustStr.SplitJoin | httpie/src/main.rs:65 | Round trip: splitting the join of separator-free segments (at least one) gives those segments back. |
| RustStr.JoinFront | httpie/src/main.rs:68-69 | When there are at least two segments, the first two, joined by the separator, form a prefix of the text. That prefix is followed by the end of the text or by a separator. |
| Httpie.FromStr | httpie/src/main.rs:61-72 | Parsing fails iff the input has no `'='`. The error message is `"Failed to parse "` followed by the whole input. On success, the key and value contain no `'='`, `key ++ "=" ++ value` is a prefix of the input, and that prefix is followed by the end or by a second `'='`. So the key is the text before the first `'='` and the value is the text up to the second one. |
| Httpie.ParseKvPair | httpie/src/main.rs:87-89 | `parse_kv_pair` succeeds or fails exactly as `from_str` does, with the same pair or the same error. |
| Httpie.FromStrRoundTrip | httpie/src/main.rs:64-71 | For any `k` and `v` without `'='`, empty ones included, parsing `k=v` gives back `(k, v)`. |
| Httpie.FromStrDropsRest | httpie/src/main.rs:69 | Everything from a second `'='` onwards is discarded: `k=v=rest` parses to `(k, v)`. |
| Httpie.FromStrLoneSeparator | httpie/src/main.rs:64-71 | `"="` parses to an empty key and an empty value. |
| Httpie.FromStrEmptyValue | httpie/src/main.rs:64-71 | `"a="` parses to the key `"a"` and an empty value. |
| Httpie.FromStrThirdSegment | httpie/src/main.rs:69 | `"a=b=c"` parses to `("a", "b")`. |
| Httpie.FromStrMissingValue | httpie/src/main.rs:65-69 | `""` and `"ab"` fail to parse, with the message naming the input. |
| Httpie.BuildBody | httpie/src/main.rs:26-29 | The body's keys are exactly the pairs' keys. Each key maps to the value of its last occurrence in the list. |

## Left out

- Handler bodies (`command_service`) and the `Storage` / `MemTable` semantics are not part of this model. They are kept abstract as the handler parameters and the store type `S`, so set/get round trips and not-found behaviour are not stated.
- The conversion from `KvError` into `CommandResponse` (status code and message text) lives in code that is not part of this model. An error response here carries the `KvError` itself.
- The shapes of the protocol types come from a protocol definition that is not part of this model. These are the parameter records (`HgetParam(table, key)` and the others), `Value` as a plain string, and the success response `Done(values, pairs)`. They are placeholders, and no stated property depends on their fields.
- The full list of `RequestData` variants comes from a protocol definition that is not part of this model. `Hmget`, `Hdel` and `Hexist` stand for the variants without a handler.
- `Arc` sharing and concurrent calls to `Service::execute` are left out because they are not sequential behaviour. The `debug!` log call is left out because it has no effect on results.
- Sending the request in `post` and in `my_get`, printing, and `main` are HTTP I/O, so they are left out.
- `parse_url` and clap's argument derivation are left out because they call into the `url` and `clap` crates. For the same reason, how clap reports a failing `parse_kv_pair` for one of several arguments is not modelled.
- The JSON encoding of the body map is left out. `BuildBody` stops at the map it produces.
- `thumbor/src/main.rs` and `kv_server/examples/dummy_server.rs` are left out because they are network and image-cache glue outside these two components.
