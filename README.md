# State-sync client: request dispatch, retry and response validation

This project models the client a coreth node uses during state sync to
fetch trie leaves, blocks and contract code from its peers. It only
accepts a response it has checked against a root hash, a block hash or
a code hash. The model covers `statesync/client.go`:

- the retry engine `get`. It encodes the request once, then makes up to
  `attempts` attempts. Each attempt picks a peer: any peer, or the next
  configured state-sync node in rotation. It sends the request, validates
  the response, and returns the first accepted result. Otherwise it
  returns the retry-limit error carrying the last error;
- the three validators `parseLeafsResponse`, `parseBlocks` and `parseCode`;
- the façade `GetLeafs`, `GetBlocks` and `GetCode`.

Files and modules:

- `messages.dfy` (`Messages`): byte strings, 32-byte hashes, 20-byte node
  IDs, the requests and responses, decoded blocks, and the error values.
  It also holds `Env`, the collaborators the client calls but does not
  own. These are the codec, RLP block decoding, the RLP header encoding
  behind `Block.Hash`, Keccak-256 and `trie.VerifyRangeProof`. Each one is
  an arbitrary total function.
- `validators.dfy` (`Validators`): each validator as a function of `Env`,
  the request and the response bytes. Lemmas cover the proof store and the
  block hash chain.
- `retry.dfy` (`RetryEngine`): the attempt loop as a specification
  (`Retry`, `GetRun`), plus lemmas on attempt bounds, first success,
  exhaustion and peer rotation.
- `client.dfy` (`StateSyncClient`): class `Client`. It has the mutable
  rotation cursor `nodeIdx` and a loop-based `Get`. The loop-based
  validators `ParseLeafsResponse` and `ParseBlocks` are proved equal to
  their specification functions. The façade methods are here too.

How the model represents the source:

- The transport is an oracle `Network`. It maps the attempt index, the
  target (`AnyPeer` for `RequestAny`, `Peer(id)` for `Request`) and the
  request bytes to a reply (bytes or an error). The source stores its
  `networkClient` in the client at construction. The model passes the
  oracle to each `Get`, `GetLeafs`, `GetBlocks` and `GetCode` call instead,
  so the constructor keeps every other piece of the configuration.
- `Get` returns the list of attempts it made as a real out-parameter.
  This is how "nothing is sent", "at most `attempts` sends" and "the
  rotation order" are stated.
- In the source, `get` takes a validator callback of type
  `parseResponseFn` and returns `interface{}`. In the model, `Get`
  chooses the validator by the request variant, and results are the sum
  type `Parsed`. The façade takes the value out of the variant that the
  contracts prove it has. It makes no type assertion.
- A nil `Start` is `None`. An empty `End` stands for both a nil and an
  empty `End`.
- The cursor starts at 0 and moves before it is used. So with several
  nodes, the first attempt a fresh client makes goes to node 1.
- Some doc comments promise more than the code checks. The comment of
  `parseLeafsResponse` (statesync/client.go:108-110) says it checks that
  there are as many keys as values and that keys are in order. The code
  leaves both checks to `trie.VerifyRangeProof`, and the model follows the
  code. No contract here claims those checks.

## Model

| member | source | states |
|---|---|---|
| `Validators.ProofStoreDomain` | statesync/client.go:137-143 | the proof database holds exactly the proof keys |
| `Validators.ProofStoreLastWriteWins` | statesync/client.go:139-143 | each proof key is bound to the value paired with its last occurrence, so a later duplicate overwrites an earlier one |
| `Validators.LeafsVerdict` | statesync/client.go:112-171 | decode errors pass through; more than `Limit` keys or values is `TooManyLeaves`; no keys and no proof is rejected; a proof is rejected when its key and value counts differ; an accepted response is the decoded one, within the limit, with `More` set to what the verifier answers for (root, first key, last key, keys, vals, proof store or nil), where the first key is `Start`, or `len(End)` zero bytes when `Start` is nil, and the last key is the last returned key, or `End` when none is returned; a response passing the checks is accepted exactly when the verifier accepts, and otherwise `InvalidRangeProof` carries the verifier's error |
| `Validators.DecodeChainAccepted` | statesync/client.go:206-225 | a block walk that is accepted decodes every encoding, in order, into a hash chain from the expected hash |
| `Validators.HashChainAccepted` | statesync/client.go:206-225 | encodings that decode into a hash chain from the expected hash are accepted as exactly those blocks (the converse) |
| `Validators.BlocksVerdict` | statesync/client.go:192-204 | a decode failure is `UnmarshalResponse`; an empty list is `EmptyResponse`; more blocks than `Parents` is rejected |
| `Validators.BlocksAccepted` | statesync/client.go:197-225 | an accepted block response is non-empty, no longer than `Parents`, the same length and order as the encodings received, with `Hash(blocks[0]) == request.Hash` and `Hash(blocks[i]) == blocks[i-1].ParentHash` |
| `Validators.BlocksChainAccepted` | statesync/client.go:197-225 | a response that decodes into such a chain is accepted unchanged; together with `BlocksAccepted`, any broken hash link or decode failure is rejected |
| `Validators.ParseCode` | statesync/client.go:243-259 | decode errors pass through; empty data is `EmptyResponse`; the response is accepted exactly when its data is non-empty and its Keccak-256 hash equals the requested hash, and it is then returned unchanged |
| `Validators.Verdict` | statesync/client.go:59-62 | the validated value's variant matches the request's variant (leaves, blocks or code) |
| `RetryEngine.Cursor` | statesync/client.go:291-294 | with configured nodes, the cursor stays in `[0, len)`; without them it does not move |
| `RetryEngine.RotationVisitsEachNodeOnce` | statesync/client.go:291-294 | any `len` consecutive attempts reach every node position exactly once |
| `RetryEngine.RetryBudget` | statesync/client.go:275-297 | the remaining attempts stay within the budget, and the cursor moves once per attempt made |
| `RetryEngine.RetrySends` | statesync/client.go:284-297 | attempt i goes to node `(nodeIdx + i + 1) % len`, or to any peer when no node is configured; it sends the same request bytes and gets the transport's reply for its index |
| `RetryEngine.RetrySucceeds` | statesync/client.go:299-308 | a successful loop ends with its first accepted attempt, after only failed ones, and returns that response's validated value |
| `RetryEngine.RetryExhausts` | statesync/client.go:273-313 | a failed loop made every remaining attempt, all of them failed, and it returns the retry-limit error carrying the last error |
| `RetryEngine.GetEncodeFailure` | statesync/client.go:266-271 | if encoding fails, get returns the encoder's error at once, with no send, no validation and no cursor move |
| `RetryEngine.GetSchedule` | statesync/client.go:266-297 | get makes at most `attempts` sends, all of the one encoding, to the rotation's nodes in order, and the cursor ends at `(nodeIdx + sends) % len` |
| `RetryEngine.GetSucceeds` | statesync/client.go:273-308 | on success, the last send is the first whose response passed validation, and the result is that response's validated value |
| `RetryEngine.GetExhausts` | statesync/client.go:273-313 | on failure after encoding, exactly `attempts` sends were made, all failed, and the error is the retry-limit error carrying the last one's error (nil when `attempts == 0`) |
| `RetryEngine.AttemptsRotateOverNodes` | statesync/client.go:288-297 | with configured nodes, any `len` consecutive attempts go to every configured node, each position once |
| `StateSyncClient.Client.constructor` | statesync/client.go:73-81 | a new client keeps its collaborators, attempt budget, retry delay and state-sync nodes (the transport is a per-call parameter), and its cursor starts at 0 |
| `StateSyncClient.Client.ParseLeafsResponse` | statesync/client.go:112-171 | the loop that fills the proof database computes exactly `LeafsVerdict` |
| `StateSyncClient.Client.ParseBlocks` | statesync/client.go:192-226 | the loop that fills the block array and threads the expected hash computes exactly `BlocksVerdict` |
| `StateSyncClient.Client.Parse` | statesync/client.go:303 | the validator run on a response is the one for the request's kind |
| `StateSyncClient.Client.Get` | statesync/client.go:261-314 | the loop returns the result, the attempt list and the new cursor that `GetRun` specifies, and it keeps the cursor in range |
| `StateSyncClient.Client.AcceptedData` | statesync/client.go:303-308 | a successful get's result is the validator's verdict on the bytes of the response it accepted |
| `StateSyncClient.Client.GetLeafs` | statesync/client.go:83-101 | returns get's leaves or its error unchanged; returned leaves came from a response that `parseLeafsResponse` accepted, and they are within `Limit` |
| `StateSyncClient.Client.GetBlocks` | statesync/client.go:173-186 | returns get's blocks, or get's error wrapped with the hash; returned blocks form a non-empty hash chain from the requested hash, no longer than `Parents` |
| `StateSyncClient.Client.GetCode` | statesync/client.go:228-238 | returns get's code, or get's error wrapped with the hash; returned code is non-empty and its Keccak-256 hash is the requested hash |

## Left out

- The randomized wait between attempts is not modelled (statesync/client.go:279-282). It is timing and randomness, with no functional effect. `maxRetryDelay` (a signed nanosecond count, as `time.Duration` is) is stored and never read, and `DefaultMaxRetryDelay` is not modelled. Because of this, the model misses one case: with a non-positive `maxRetryDelay`, `rand.Int63n` panics on the second attempt. The model instead goes on retrying.
- Logging (statesync/client.go:300, 305) and the node ID that `RequestAny` returns are left out. That ID is only logged.
- The transport is an oracle. `StateSyncVersion` is not passed to it, and its timeouts and peer choice are not modelled.
- The codec, RLP and Keccak-256 internals, and the algorithm of `trie.VerifyRangeProof`, are not modelled. They are arbitrary functions in `Env`, and no Merkle proof is re-verified.
- The proof database is a map. `memorydb` creation and `Close` are not modelled. `Put` into an open in-memory database cannot fail, so that error branch is left out.
- Concurrent callers and the "Thread safe" claim (statesync/client.go:265) are not modelled. Calls are sequential.
- The type assertions are not modelled. The source asserts the request type in each validator and the result type in the façade (statesync/client.go:95-98, 185, 236). Sum types replace them. So `GetLeafs`'s "unexpected type" error is not modelled, and neither are the panics in `GetBlocks` and `GetCode` on a mismatch.
- The `Client` Go interface is not modelled separately. The class stands for it.
- Error identity under Go's `errors.Is` is not modelled. Each error is a constructor holding its cause. In the source, `errUnmarshalResponse`, `errInvalidRangeProof` and `errExceededRetryLimit` are only formatted into the message, and only their cause is wrapped (statesync/client.go:163, 195, 213, 313). `errTooManyLeaves` and `errHashMismatch` are wrapped themselves (statesync/client.go:122, 217, 255).
