# mio_httpc client API value layer, in Dafny

This project models the pure value layer of the client API of `mio_httpc`, a
non-blocking HTTP(S) client driven by a poll loop. The layer has four parts:

- **Call identity.** A `Call` packs a 16-bit connection-slot id and a 16-bit
  call id into one 32-bit word, `(call_id << 16) | con_id`. Its second field
  is always the largest `usize`. The module also defines the all-ones
  sentinel `empty`, `invalidate`, and the routing key `CallRef` with `is_ref`.
- **`ResponseBody`.** A body is either `Sized(n)` or `Streamed`. It is empty
  only for `Sized(0)`.
- **Header view.** `Header::is` compares names ignoring ASCII case. `Headers`
  is a 32-slot array with a length and an iterator cursor.
  `Response::headers` post-processes the slots the HTTP parser filled:
  - it stops at the first empty name;
  - it drops values that are not UTF-8;
  - it packs the kept entries to the front, in order.
- **`SendState` / `RecvState`.** These are the per-step reports of a call. A
  `Terminal` predicate follows the doc comments in the Rust code.

Modules:

- `Bounded`: `byte`, `u16`, `u32`, `usize`.
- `Wrappers`: `Option`.
- `Bits`: `Or`, `And` and the shifts on naturals, and their arithmetic meaning.
- `CallIdentity`: `Call` and `CallRef`.
- `Utf8`: well-formedness by the grammar of RFC 3629 section 4, the checker,
  and the scalar-value encoding.
- `HeaderView`: `Header`, the name comparison, and the `Headers` iterator.
- `Responses`: `Response`, `ResponseBody`, and `HeadersOf`.
- `States`: `SendState` and `RecvState`.

Three behaviours of the code are worth stating plainly:

- `Call::new(0xFFFF, 0xFFFF)` is bit-identical to `Call::empty()`, so a
  constructed call can be the sentinel (`CallIdentity.NewCallIsEmptyIff`).
- `is_ref` compares only the packed word, so a key taken before
  `invalidate` still matches a new call built from the same ids
  (`CallIdentity.StaleRefStillMatches`).
- `headers()` stops at the first slot with an empty name, whatever the
  parser left in the 32 slots.

## Model

| member | source | states |
|---|---|---|
| `Bits.OrDisjointIsAdd` | src/api/mod.rs:240 | or-ing a value below 2^k into a word shifted left by k is the same as adding it |
| `Bits.ShrIsDiv` | src/api/mod.rs:250-252 | shifting right by k, one dropped bit at a time, is division by 2^k |
| `Bits.AndLowMaskIsMod` | src/api/mod.rs:250-255 | masking with k one-bits keeps the value modulo 2^k |
| `CallIdentity.Pack` | src/api/mod.rs:237-241 | the shift-and-or packing equals `call_id * 65536 + con_id`, so it fits in 32 bits |
| `CallIdentity.NewCall` | src/api/mod.rs:237-241 | a new call's packed word is `call_id * 65536 + con_id` and its second field is the largest `usize` |
| `CallIdentity.EmptyCall` | src/api/mod.rs:243-245 | the sentinel unpacks to call id 0xFFFF and connection id 0xFFFF, with the reserved second field |
| `CallIdentity.CallId` | src/api/mod.rs:250-252 | shift right 16 then mask 0xFFFF yields the packed word divided by 65536 |
| `CallIdentity.ConId` | src/api/mod.rs:253-255 | masking with 0xFFFF yields the packed word modulo 65536 |
| `CallIdentity.IsEmpty` | src/api/mod.rs:247-249 | full structural equality with `Call(0xFFFF_FFFF, usize::MAX)`, which holds iff both unpacked ids are 0xFFFF and the second field is `usize::MAX` |
| `CallIdentity.Invalidate` | src/api/mod.rs:256-261 | whatever the prior value, the result is empty and unpacks to the all-ones ids |
| `CallIdentity.GetRef` | src/api/mod.rs:223-226 | the key of a call matches that call under `is_ref` and keeps its second field |
| `CallIdentity.IsRef` | src/api/mod.rs:232-235 | a call matches a key iff the key is the call's packed word paired with any second field |
| `CallIdentity.NewCallRef` | src/api/mod.rs:278-283 | a key built from ids has the same packed word as the call built from them |
| `CallIdentity.PackRoundTrip` | src/api/mod.rs:237-255 | `call_id` and `con_id` of `Call::new(con, cid)` give back `cid` and `con` |
| `CallIdentity.NewCallInjective` | src/api/mod.rs:237-241 | two constructed calls are equal iff their id pairs are equal |
| `CallIdentity.UnpackRoundTrip` | src/api/mod.rs:237-255 | every call with the reserved second field is rebuilt by `new` from its own unpacked ids |
| `CallIdentity.NewCallIsEmptyIff` | src/api/mod.rs:237-249 | `Call::new(con, cid).is_empty()` holds iff both ids are 0xFFFF |
| `CallIdentity.SentinelIsConstructible` | src/api/mod.rs:237-249 | `Call::new(0xFFFF, 0xFFFF)` equals `Call::empty()`, and `empty` is empty |
| `CallIdentity.InvalidateIdempotent` | src/api/mod.rs:243-261 | after invalidation a call is empty, and invalidating twice equals invalidating once |
| `CallIdentity.IsRefOfOwnRef` | src/api/mod.rs:224-235 | a call matches its own key; `Call::new(a, b)` matches `CallRef::new(a, b)`, which equals its `get_ref` |
| `CallIdentity.IsRefIgnoresReserved` | src/api/mod.rs:232-235 | changing the second field of the key or of the call never changes `is_ref` |
| `CallIdentity.StaleRefStillMatches` | src/api/mod.rs:232-261 | a key taken before invalidation still matches a fresh call with the same ids; the invalidated call matches it only for the all-ones ids |
| `CallIdentity.RefLess` | src/api/mod.rs:275-276 | the derived `Ord` on keys: a smaller packed word comes first, and equal packed words are ordered by the second field |
| `CallIdentity.RefLessIsStrictTotal` | src/api/mod.rs:275-276 | the derived lexicographic order on keys is irreflexive, transitive, asymmetric and total |
| `Utf8.WidthFromLead` | src/api/mod.rs:50 | a well-formed character's length is fixed by its lead byte |
| `Utf8.ValidUnfold` | src/api/mod.rs:50 | a non-empty string is valid iff the character its lead byte announces is well formed and the rest is valid |
| `Utf8.CheckUtf8` | src/api/mod.rs:50 | the byte-range scan of `from_utf8` accepts exactly the strings the RFC 3629 grammar derives |
| `Utf8.CheckChar` | src/api/mod.rs:50 | the per-character byte-range test accepts exactly one well-formed character of the width its lead byte announces |
| `Utf8.EncodeWellFormed` | src/api/mod.rs:50 | the encoding of every Unicode scalar value is a well-formed character |
| `Utf8.DecodeChar` | src/api/mod.rs:50 | every well-formed character decodes to a scalar value (no surrogate, nothing above U+10FFFF) |
| `Utf8.DecodeEncode` | src/api/mod.rs:50 | decoding the encoding of a scalar value gives it back |
| `Utf8.EncodeDecode` | src/api/mod.rs:50 | encoding the decoding of a well-formed character gives it back |
| `Utf8.Encode` | src/api/mod.rs:50 | the encoding of any string of scalar values is accepted as valid |
| `Utf8.Decode` | src/api/mod.rs:50 | every accepted byte string is the encoding of a string of scalar values |
| `HeaderView.Is` | src/api/mod.rs:71-74 | the name matches iff it has the argument's length and equals it byte for byte after ASCII lower-casing |
| `HeaderView.ByteMatch` | src/api/mod.rs:71-74 | two bytes match iff they are equal or are the two cases of one ASCII letter; a non-ASCII byte matches only itself |
| `HeaderView.EqIgnoreAsciiCaseIsEquivalence` | src/api/mod.rs:71-74 | the name comparison is reflexive, symmetric and transitive |
| `HeaderView.ContentTypeExample` | src/api/mod.rs:71-74 | "Content-Type" matches "content-type" but not "Content Type" |
| `HeaderView.NewHeaders` | src/api/mod.rs:89-93 | a new header array has every slot empty, length 0, cursor 0 and nothing to yield |
| `HeaderView.Next` | src/api/mod.rs:104-113 | `next` yields the first remaining header and moves the cursor past it; it yields `None` without any change exactly when nothing remains |
| `HeaderView.Collect` | src/api/mod.rs:104-113 | the iterator yields exactly `headers[next..len]` in index order before its first `None` |
| `HeaderView.ExhaustedStaysNone` | src/api/mod.rs:104-113 | after `len - next` calls the cursor sits at `len` and every later call returns `None` |
| `Responses.NewResponse` | src/api/mod.rs:31-36 | a new response holds no header bytes, status 0 and no upgrade |
| `Responses.ResponseBody.IsEmpty` | src/api/mod.rs:187-193 | `is_empty` holds iff the body is `Sized(0)` |
| `Responses.BodyIsEmptyIff` | src/api/mod.rs:187-193 | `Streamed` and `Sized(n)` with n > 0 are never empty |
| `Responses.FirstEmptyName` | src/api/mod.rs:46-49 | the scan stops at the first slot with an empty name; every earlier slot has a non-empty name |
| `Responses.HeadersOf` | src/api/mod.rs:38-57 | `headers()` returns the UTF-8-valued slots before the first empty name, packed in order, with `len` their count, cursor 0 and the other slots empty |
| `Responses.SelectedByIndices` | src/api/mod.rs:45-55 | the kept headers correspond to strictly increasing slot indices, each before the first empty name with a UTF-8 value, and every such slot is kept |
| `Responses.KeptWellFormed` | src/api/mod.rs:45-55 | no kept header has an empty name or a non-UTF-8 value, and no more headers are kept than slots scanned (so at most 32) |
| `Responses.AllGoodAllKept` | src/api/mod.rs:39-55 | when all 32 slots hold named headers with UTF-8 values, all 32 are kept unchanged |
| `Responses.SkipsBadValue` | src/api/mod.rs:45-55 | for the layout good headers in slots 0, 1 and 3, a non-UTF-8 value in slot 2 and an empty name in slot 4, exactly the three good headers come out, in wire order (the general case is `SelectedByIndices`) |
| `States.SendTerminalIff` | src/api/mod.rs:7-23 | the definition of `Terminal` for sends, from the doc comments: the variants that end the call are `Error` and `Done`, and no others |
| `States.RecvTerminalIff` | src/api/mod.rs:196-216 | the definition of `Terminal` for receives, from the doc comments: the variants that end the call are `Error`, `Done`, `DoneWithBody`, and a `Response` whose body is `Sized(0)` |

## Left out

- `HttpcCfg::new` and `HttpcCfg::certs_from_path` are not modelled. They are configuration and filesystem I/O: metadata, directory listing and file reads.
- The `httparse` parser is not modelled. It is a foreign crate. `HeadersOf` takes the 32 slots it filled as input, and the Rust code discards the parse result anyway.
- The `Display` implementations for `Header`, `Headers` and `ResponseBody` are not modelled. They only format output.
- `Call::simple` is not modelled. `SimpleCall` and the `websocket` and `builder` submodules are not part of this model.
- The error type inside `SendState::Error` and `RecvState::Error` is a type parameter. Its contents are not interpreted.
- Header names and values are byte strings owned by the header. The zero-copy borrowing of the receive buffer is not modelled.
- `usize` is taken to be 64 bits wide. The second field of `Call` and `CallRef` is the largest value of that width.
- `Response::headers` runs the parser on the response's raw bytes. The model's `HeadersOf` takes the parser's output instead of a `Response`.
- The engine that drives calls and reports these states is not part of this model. The order in which it reports states is also left out.
