/** The three response validators of the state-sync client, as functions of
    the collaborators, the request and the response bytes. Each returns the
    validated value or the error that makes the retry engine try again. */
module Validators {
  import opened Messages

  // ---------------------------------------------------------------------
  // Leaves: limit checks, proof store, effective range, range proof
  // ---------------------------------------------------------------------

  /** The key the range proof starts at: the request's start, or, when the
      start is nil, as many zero bytes as the request's end is long. */
  function FirstKey(req: LeafsRequest): Bytes
  {
    match req.start
    case Some(s) => s
    case None => seq(|req.end|, _ => 0)
  }

  /** The key the range proof ends at: the last key returned, or the
      request's end when no key was returned. */
  function LastKey(req: LeafsRequest, keys: seq<Bytes>): Bytes
  {
    if |keys| > 0 then keys[|keys| - 1] else req.end
  }

  /** The proof database after putting each proof key with its value, in
      order; a later put of the same key overwrites an earlier one. */
  function ProofStore(keys: seq<Bytes>, vals: seq<Bytes>): map<Bytes, Bytes>
    requires |keys| == |vals|
    decreases |keys|
  {
    if |keys| == 0 then map[]
    else ProofStore(keys[..|keys| - 1], vals[..|vals| - 1])[keys[|keys| - 1] := vals[|vals| - 1]]
  }

  /** The proof store holds exactly the proof keys. */
  lemma {:induction false} ProofStoreDomain(keys: seq<Bytes>, vals: seq<Bytes>)
    requires |keys| == |vals|
    ensures forall k :: k in ProofStore(keys, vals) <==> k in keys
    decreases |keys|
  {
    var n := |keys|;
    if n > 0 {
      ProofStoreDomain(keys[..n - 1], vals[..n - 1]);
      assert keys == keys[..n - 1] + [keys[n - 1]];
    }
  }

  /** A proof key is bound to the value paired with its last occurrence. */
  lemma {:induction false} ProofStoreLastWriteWins(keys: seq<Bytes>, vals: seq<Bytes>, i: nat)
    requires |keys| == |vals| && i < |keys|
    requires forall j :: i < j < |keys| ==> keys[j] != keys[i]
    ensures keys[i] in ProofStore(keys, vals) && ProofStore(keys, vals)[keys[i]] == vals[i]
    decreases |keys|
  {
    var n := |keys|;
    if i < n - 1 {
      ProofStoreLastWriteWins(keys[..n - 1], vals[..n - 1], i);
    }
  }

  /** The proof argument passed to the verifier: a store of the proof
      nodes when proof keys were sent, nil otherwise. */
  function ProofArg(resp: LeafsResponse): Option<map<Bytes, Bytes>>
    requires |resp.proofKeys| > 0 ==> |resp.proofKeys| == |resp.proofVals|
  {
    if |resp.proofKeys| > 0 then Some(ProofStore(resp.proofKeys, resp.proofVals)) else None
  }

  /** parseLeafsResponse. */
  function LeafsVerdict(env: Env, req: LeafsRequest, data: Bytes): (r: Result<LeafsResponse, Error>)
    // a decoding error is passed on unchanged
    ensures env.unmarshalLeafs(data).Err? ==> r == Err(External(env.unmarshalLeafs(data).error))
    // more keys or values than the limit
    ensures var d := env.unmarshalLeafs(data);
      d.Ok? && (|d.value.keys| > req.limit as int || |d.value.vals| > req.limit as int) ==>
        r == Err(TooManyLeaves(|d.value.keys|, req.limit))
    // an empty key list needs a proof
    ensures var d := env.unmarshalLeafs(data);
      d.Ok? && |d.value.keys| == 0 && |d.value.proofKeys| == 0 ==> r.Err?
    // proof keys and values must pair up when a proof is sent
    ensures var d := env.unmarshalLeafs(data);
      d.Ok? && |d.value.proofKeys| > 0 && |d.value.proofKeys| != |d.value.proofVals| ==> r.Err?
    // what an accepted response satisfies: it is the decoded one with More
    // replaced by the verifier's answer on the effective range
    ensures r.Ok? ==>
      && env.unmarshalLeafs(data).Ok?
      && r.value == env.unmarshalLeafs(data).value.(more := r.value.more)
      && |r.value.keys| <= req.limit as int && |r.value.vals| <= req.limit as int
      && (|r.value.keys| > 0 || |r.value.proofKeys| > 0)
      && (|r.value.proofKeys| > 0 ==> |r.value.proofKeys| == |r.value.proofVals|)
      && env.verifyRangeProof(req.root, FirstKey(req), LastKey(req, r.value.keys),
                              r.value.keys, r.value.vals, ProofArg(r.value)) == Ok(r.value.more)
    // a response passing the checks is accepted exactly when the verifier accepts
    ensures var d := env.unmarshalLeafs(data);
      d.Ok? && |d.value.keys| <= req.limit as int && |d.value.vals| <= req.limit as int
      && (|d.value.keys| > 0 || |d.value.proofKeys| > 0)
      && (|d.value.proofKeys| > 0 ==> |d.value.proofKeys| == |d.value.proofVals|) ==>
        var v := env.verifyRangeProof(req.root, FirstKey(req), LastKey(req, d.value.keys),
                                      d.value.keys, d.value.vals, ProofArg(d.value));
        r == match v
             case Ok(more) => Ok(d.value.(more := more))
             case Err(e) => Err(InvalidRangeProof(e))
  {
    match env.unmarshalLeafs(data)
    case Err(e) => Err(External(e))
    case Ok(resp) =>
      if |resp.keys| > req.limit as int || |resp.vals| > req.limit as int then
        Err(TooManyLeaves(|resp.keys|, req.limit))
      else if |resp.keys| == 0 && |resp.proofKeys| == 0 then
        Err(EmptyKeysWithoutProof)
      else if |resp.proofKeys| > 0 && |resp.proofKeys| != |resp.proofVals| then
        Err(ProofLengthMismatch(|resp.proofKeys|, |resp.proofVals|))
      else
        match env.verifyRangeProof(req.root, FirstKey(req), LastKey(req, resp.keys),
                                   resp.keys, resp.vals, ProofArg(resp))
        case Err(e) => Err(InvalidRangeProof(e))
        case Ok(more) => Ok(resp.(more := more))
  }

  // ---------------------------------------------------------------------
  // Blocks: a hash chain from the requested tip
  // ---------------------------------------------------------------------

  /** Block.Hash: the Keccak-256 hash of the block's RLP-encoded header. */
  function BlockHash(env: Env, b: Block): Hash
  {
    env.keccak256(env.encodeHeader(b.header))
  }

  /** The first block hashes to `tip` and every later block hashes to the
      parent hash of the block before it. */
  ghost predicate IsHashChain(env: Env, blocks: seq<Block>, tip: Hash)
  {
    && (|blocks| > 0 ==> BlockHash(env, blocks[0]) == tip)
    && forall i :: 0 < i < |blocks| ==> BlockHash(env, blocks[i]) == blocks[i - 1].header.parentHash
  }

  /** `prefix` in front of an accepted result; an error stays as it is. */
  function Then(prefix: seq<Block>, r: Result<seq<Block>, Error>): Result<seq<Block>, Error>
  {
    match r
    case Ok(rest) => Ok(prefix + rest)
    case Err(e) => Err(e)
  }

  lemma ThenEmpty(r: Result<seq<Block>, Error>)
    ensures Then([], r) == r
  {
    if r.Ok? { assert [] + r.value == r.value; }
  }

  lemma ThenAppend(prefix: seq<Block>, b: Block, r: Result<seq<Block>, Error>)
    ensures Then(prefix, Then([b], r)) == Then(prefix + [b], r)
  {
    if r.Ok? { assert prefix + ([b] + r.value) == (prefix + [b]) + r.value; }
  }

  /** The block-decoding walk of parseBlocks: decode each encoding in order
      and check its hash against the hash expected of it, which starts at
      the tip's and then is the parent hash of the block just decoded. */
  function DecodeChain(env: Env, encodings: seq<Bytes>, expected: Hash): Result<seq<Block>, Error>
    decreases |encodings|
  {
    if |encodings| == 0 then Ok([])
    else
      match env.decodeBlock(encodings[0])
      case Err(e) => Err(UnmarshalResponse(e))
      case Ok(b) =>
        if BlockHash(env, b) != expected then Err(HashMismatch(BlockHash(env, b), expected))
        else Then([b], DecodeChain(env, encodings[1..], b.header.parentHash))
  }

  /** An accepted walk decodes every encoding, in order, into a hash chain
      from `expected`. */
  lemma {:induction false} DecodeChainAccepted(env: Env, encodings: seq<Bytes>, expected: Hash)
    requires DecodeChain(env, encodings, expected).Ok?
    ensures var blocks := DecodeChain(env, encodings, expected).value;
      && |blocks| == |encodings|
      && (forall i :: 0 <= i < |blocks| ==> env.decodeBlock(encodings[i]) == Ok(blocks[i]))
      && IsHashChain(env, blocks, expected)
    decreases |encodings|
  {
    if |encodings| > 0 {
      var b := env.decodeBlock(encodings[0]).value;
      var tail := encodings[1..];
      DecodeChainAccepted(env, tail, b.header.parentHash);
      var rest := DecodeChain(env, tail, b.header.parentHash).value;
      var blocks := DecodeChain(env, encodings, expected).value;
      assert blocks == [b] + rest;
      forall i | 0 <= i < |blocks|
        ensures env.decodeBlock(encodings[i]) == Ok(blocks[i])
      {
        if i > 0 { assert encodings[i] == tail[i - 1]; }
      }
    }
  }

  /** Conversely, encodings that decode into a hash chain from `expected`
      are accepted, and the walk returns exactly those blocks. */
  lemma {:induction false} HashChainAccepted(env: Env, encodings: seq<Bytes>, blocks: seq<Block>, expected: Hash)
    requires |blocks| == |encodings|
    requires forall i :: 0 <= i < |blocks| ==> env.decodeBlock(encodings[i]) == Ok(blocks[i])
    requires IsHashChain(env, blocks, expected)
    ensures DecodeChain(env, encodings, expected) == Ok(blocks)
    decreases |encodings|
  {
    if |encodings| > 0 {
      var b := blocks[0];
      assert env.decodeBlock(encodings[0]) == Ok(b);
      var tail, rest := encodings[1..], blocks[1..];
      forall i | 0 <= i < |rest|
        ensures env.decodeBlock(tail[i]) == Ok(rest[i])
      {
        assert tail[i] == encodings[i + 1] && rest[i] == blocks[i + 1];
      }
      forall i | 0 < i < |rest|
        ensures BlockHash(env, rest[i]) == rest[i - 1].header.parentHash
      {
        assert rest[i] == blocks[i + 1] && rest[i - 1] == blocks[i];
      }
      if |rest| > 0 { assert rest[0] == blocks[1]; }
      HashChainAccepted(env, tail, rest, b.header.parentHash);
      assert blocks == [b] + rest;
    }
  }

  /** parseBlocks. */
  function BlocksVerdict(env: Env, req: BlockRequest, data: Bytes): (r: Result<seq<Block>, Error>)
    ensures env.unmarshalBlocks(data).Err? ==> r == Err(UnmarshalResponse(env.unmarshalBlocks(data).error))
    ensures env.unmarshalBlocks(data).Ok? && |env.unmarshalBlocks(data).value.blocks| == 0 ==>
              r == Err(EmptyResponse)
    ensures env.unmarshalBlocks(data).Ok? && |env.unmarshalBlocks(data).value.blocks| > req.parents as int ==>
              r.Err?
  {
    match env.unmarshalBlocks(data)
    case Err(e) => Err(UnmarshalResponse(e))
    case Ok(resp) =>
      if |resp.blocks| == 0 then Err(EmptyResponse)
      else if |resp.blocks| > req.parents as int then Err(TooManyBlocks)
      else DecodeChain(env, resp.blocks, req.hash)
  }

  /** An accepted block response is a non-empty hash chain from the
      requested hash, no longer than requested, holding the decoding of
      each returned encoding in the order received. */
  lemma BlocksAccepted(env: Env, req: BlockRequest, data: Bytes)
    requires BlocksVerdict(env, req, data).Ok?
    ensures var blocks := BlocksVerdict(env, req, data).value;
      && env.unmarshalBlocks(data).Ok?
      && var encodings := env.unmarshalBlocks(data).value.blocks;
      && 0 < |blocks| == |encodings| <= req.parents as int
      && (forall i :: 0 <= i < |blocks| ==> env.decodeBlock(encodings[i]) == Ok(blocks[i]))
      && IsHashChain(env, blocks, req.hash)
  {
    DecodeChainAccepted(env, env.unmarshalBlocks(data).value.blocks, req.hash);
  }

  /** A response whose encodings decode into a non-empty hash chain from the
      requested hash, no longer than requested, is accepted as those blocks;
      with BlocksAccepted, any broken hash link is rejected. */
  lemma BlocksChainAccepted(env: Env, req: BlockRequest, data: Bytes, blocks: seq<Block>)
    requires env.unmarshalBlocks(data).Ok?
    requires var encodings := env.unmarshalBlocks(data).value.blocks;
      && 0 < |blocks| == |encodings| <= req.parents as int
      && (forall i :: 0 <= i < |blocks| ==> env.decodeBlock(encodings[i]) == Ok(blocks[i]))
    requires IsHashChain(env, blocks, req.hash)
    ensures BlocksVerdict(env, req, data) == Ok(blocks)
  {
    HashChainAccepted(env, env.unmarshalBlocks(data).value.blocks, blocks, req.hash);
  }

  // ---------------------------------------------------------------------
  // Code: a non-empty blob with the requested hash
  // ---------------------------------------------------------------------

  /** parseCode. */
  function ParseCode(env: Env, req: CodeRequest, data: Bytes): (r: Result<CodeResponse, Error>)
    ensures env.unmarshalCode(data).Err? ==> r == Err(External(env.unmarshalCode(data).error))
    ensures env.unmarshalCode(data).Ok? && |env.unmarshalCode(data).value.data| == 0 ==> r == Err(EmptyResponse)
    ensures r.Ok? <==>
      && env.unmarshalCode(data).Ok?
      && |env.unmarshalCode(data).value.data| > 0
      && env.keccak256(env.unmarshalCode(data).value.data) == req.hash
    ensures r.Ok? ==> r.value == env.unmarshalCode(data).value
  {
    match env.unmarshalCode(data)
    case Err(e) => Err(External(e))
    case Ok(resp) =>
      if |resp.data| == 0 then Err(EmptyResponse)
      else if env.keccak256(resp.data) != req.hash then Err(HashMismatch(env.keccak256(resp.data), req.hash))
      else Ok(resp)
  }

  // ---------------------------------------------------------------------
  // The validator each request kind is checked with
  // ---------------------------------------------------------------------

  /** The validation of one response to `request`. */
  function Verdict(env: Env, request: Request, data: Bytes): (r: Result<Parsed, Error>)
    ensures r.Ok? ==>
      && (request.LeafsReq? <==> r.value.LeafsParsed?)
      && (request.BlockReq? <==> r.value.BlocksParsed?)
      && (request.CodeReq? <==> r.value.CodeParsed?)
  {
    match request
    case LeafsReq(q) =>
      (match LeafsVerdict(env, q, data) case Ok(v) => Ok(LeafsParsed(v)) case Err(e) => Err(e))
    case BlockReq(q) =>
      (match BlocksVerdict(env, q, data) case Ok(v) => Ok(BlocksParsed(v)) case Err(e) => Err(e))
    case CodeReq(q) =>
      (match ParseCode(env, q, data) case Ok(v) => Ok(CodeParsed(v)) case Err(e) => Err(e))
  }
}
