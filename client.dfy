/** The state-sync client: a rotation cursor over the configured state-sync
    nodes, the retry loop every request goes through, the validators it
    runs on each response, and the three typed entry points. */
module StateSyncClient {
  import opened Messages
  import opened Validators
  import opened RetryEngine

  class Client {
    const env: Env
    const maxAttempts: uint8
    const maxRetryDelay: int
    const stateSyncNodes: seq<NodeId>
    /** The rotation cursor: the position of the node asked last. */
    var nodeIdx: nat

    ghost predicate Valid()
      reads this
    {
      |stateSyncNodes| > 0 ==> nodeIdx < |stateSyncNodes|
    }

    /** NewClient: the cursor starts at 0. */
    constructor (env: Env, maxAttempts: uint8, maxRetryDelay: int, stateSyncNodes: seq<NodeId>)
      ensures Valid()
      ensures this.env == env && this.maxAttempts == maxAttempts && this.maxRetryDelay == maxRetryDelay
      ensures this.stateSyncNodes == stateSyncNodes && nodeIdx == 0
    {
      this.env := env;
      this.maxAttempts := maxAttempts;
      this.maxRetryDelay := maxRetryDelay;
      this.stateSyncNodes := stateSyncNodes;
      nodeIdx := 0;
    }

    /** parseLeafsResponse, with its loop putting the proof nodes into the
        proof database. */
    method ParseLeafsResponse(req: LeafsRequest, data: Bytes) returns (r: Result<LeafsResponse, Error>)
      ensures r == LeafsVerdict(env, req, data)
    {
      var decoded := env.unmarshalLeafs(data);
      if decoded.Err? {
        return Err(External(decoded.error));
      }
      var resp := decoded.value;
      if |resp.keys| > req.limit as int || |resp.vals| > req.limit as int {
        return Err(TooManyLeaves(|resp.keys|, req.limit));
      }
      if |resp.keys| == 0 && |resp.proofKeys| == 0 {
        return Err(EmptyKeysWithoutProof);
      }
      var proof: Option<map<Bytes, Bytes>> := None;
      if |resp.proofKeys| > 0 {
        if |resp.proofKeys| != |resp.proofVals| {
          return Err(ProofLengthMismatch(|resp.proofKeys|, |resp.proofVals|));
        }
        var db: map<Bytes, Bytes> := map[];
        var i := 0;
        while i < |resp.proofKeys|
          invariant 0 <= i <= |resp.proofKeys|
          invariant db == ProofStore(resp.proofKeys[..i], resp.proofVals[..i])
        {
          assert resp.proofKeys[..i + 1][..i] == resp.proofKeys[..i];
          assert resp.proofVals[..i + 1][..i] == resp.proofVals[..i];
          db := db[resp.proofKeys[i] := resp.proofVals[i]];
          i := i + 1;
        }
        assert resp.proofKeys[..i] == resp.proofKeys && resp.proofVals[..i] == resp.proofVals;
        proof := Some(db);
      }
      var verified := env.verifyRangeProof(req.root, FirstKey(req), LastKey(req, resp.keys),
                                           resp.keys, resp.vals, proof);
      if verified.Err? {
        return Err(InvalidRangeProof(verified.error));
      }
      return Ok(resp.(more := verified.value));
    }

    /** parseBlocks, with its loop filling the block array while threading
        the expected hash through the parent hashes. */
    method ParseBlocks(req: BlockRequest, data: Bytes) returns (r: Result<seq<Block>, Error>)
      ensures r == BlocksVerdict(env, req, data)
    {
      var decoded := env.unmarshalBlocks(data);
      if decoded.Err? {
        return Err(UnmarshalResponse(decoded.error));
      }
      var encodings := decoded.value.blocks;
      if |encodings| == 0 {
        return Err(EmptyResponse);
      }
      if |encodings| > req.parents as int {
        return Err(TooManyBlocks);
      }
      var hash := req.hash;
      var blocks := new Block[|encodings|](_ => Block(Header(req.hash, []), []));
      var i := 0;
      assert encodings[0..] == encodings;
      ThenEmpty(DecodeChain(env, encodings, hash));
      while i < |encodings|
        invariant 0 <= i <= |encodings| == blocks.Length
        invariant DecodeChain(env, encodings, req.hash) == Then(blocks[..i], DecodeChain(env, encodings[i..], hash))
      {
        assert encodings[i..][0] == encodings[i] && encodings[i..][1..] == encodings[i + 1..];
        var block := env.decodeBlock(encodings[i]);
        if block.Err? {
          return Err(UnmarshalResponse(block.error));
        }
        var b := block.value;
        if BlockHash(env, b) != hash {
          return Err(HashMismatch(BlockHash(env, b), hash));
        }
        ghost var done := blocks[..i];
        ThenAppend(done, b, DecodeChain(env, encodings[i + 1..], b.header.parentHash));
        blocks[i] := b;
        hash := b.header.parentHash;
        i := i + 1;
        assert blocks[..i] == done + [b];
      }
      assert encodings[i..] == [];
      assert blocks[..] == blocks[..i] + [];
      return Ok(blocks[..]);
    }

    /** The validator matching the request's kind. */
    method Parse(request: Request, data: Bytes) returns (r: Result<Parsed, Error>)
      ensures r == Verdict(env, request, data)
    {
      match request
      case LeafsReq(q) =>
        var v := ParseLeafsResponse(q, data);
        r := if v.Ok? then Ok(LeafsParsed(v.value)) else Err(v.error);
      case BlockReq(q) =>
        var v := ParseBlocks(q, data);
        r := if v.Ok? then Ok(BlocksParsed(v.value)) else Err(v.error);
      case CodeReq(q) =>
        var v := ParseCode(env, q, data);
        r := if v.Ok? then Ok(CodeParsed(v.value)) else Err(v.error);
    }

    /** get: encode once, then up to `attempts` times pick the next peer,
        send, and validate; return the first accepted result. `trace` lists
        the attempts made, in order. */
    method Get(request: Request, attempts: uint8, net: Network) returns (r: Result<Parsed, Error>, trace: seq<Attempt>)
      requires Valid()
      modifies this
      ensures Valid()
      ensures var run := GetRun(env, stateSyncNodes, request, net, attempts, old(nodeIdx));
        r == run.result && trace == run.attempts && nodeIdx == run.nodeIdx
    {
      var encoded := env.requestToBytes(request);
      if encoded.Err? {
        return Err(External(encoded.error)), [];
      }
      var requestBytes := encoded.value;
      ghost var spec := GetRun(env, stateSyncNodes, request, net, attempts, nodeIdx);
      var err: Option<Error> := None;
      trace := [];
      var attempt: uint8 := 0;
      assert spec == Extend(trace, Retry(env, stateSyncNodes, request, requestBytes, net, attempts, 0, nodeIdx, err));
      while attempt < attempts
        invariant attempt <= attempts
        invariant Valid()
        invariant spec == Extend(trace, Retry(env, stateSyncNodes, request, requestBytes, net, attempts, attempt as nat, nodeIdx, err))
      {
        ghost var before, traceBefore := nodeIdx, trace;
        RetryStep(env, stateSyncNodes, request, requestBytes, net, attempts, attempt as nat, before, err);
        // the randomized wait before a retry is not modelled
        var target: Target;
        if |stateSyncNodes| == 0 {
          target := AnyPeer;
        } else {
          nodeIdx := (nodeIdx + 1) % |stateSyncNodes|;
          target := Peer(stateSyncNodes[nodeIdx]);
        }
        assert nodeIdx == Cursor(before, |stateSyncNodes|, 1) && target == Pick(stateSyncNodes, nodeIdx);
        var reply := net(attempt as nat, target, requestBytes);
        var a := Attempt(target, reply);
        trace := trace + [a];
        match reply {
          case Failed(e) =>
            err := Some(External(e));
          case Delivered(data) =>
            var parsed := Parse(request, data);
            if parsed.Ok? {
              return parsed, trace;
            }
            err := Some(parsed.error);
        }
        assert err == AttemptError(env, request, a);
        ExtendStep(traceBefore, a, Retry(env, stateSyncNodes, request, requestBytes, net, attempts, attempt as nat + 1, nodeIdx, err));
        attempt := attempt + 1;
      }
      return Err(ExceededRetryLimit(attempts, err)), trace;
    }

    /** GetLeafs. */
    method GetLeafs(req: LeafsRequest, net: Network) returns (r: Result<LeafsResponse, Error>)
      requires Valid()
      modifies this
      ensures Valid()
      ensures var run := GetRun(env, stateSyncNodes, LeafsReq(req), net, maxAttempts, old(nodeIdx));
        && nodeIdx == run.nodeIdx
        && (run.result.Err? ==> r == Err(run.result.error))
        && (run.result.Ok? ==> run.result.value.LeafsParsed? && r == Ok(run.result.value.leafs))
      ensures r.Ok? ==> exists data :: LeafsVerdict(env, req, data) == r
      ensures r.Ok? ==> |r.value.keys| <= req.limit as int && |r.value.vals| <= req.limit as int
    {
      ghost var idx0 := nodeIdx;
      var res, trace := Get(LeafsReq(req), maxAttempts, net);
      if res.Err? {
        return Err(res.error);
      }
      ghost var data := AcceptedData(LeafsReq(req), net, idx0);
      r := Ok(res.value.leafs);
      assert LeafsVerdict(env, req, data) == r;
    }

    /** GetBlocks. */
    method GetBlocks(hash: Hash, height: uint64, parents: uint16, net: Network) returns (r: Result<seq<Block>, Error>)
      requires Valid()
      modifies this
      ensures Valid()
      ensures var run := GetRun(env, stateSyncNodes, BlockReq(BlockRequest(hash, height, parents)), net, maxAttempts, old(nodeIdx));
        && nodeIdx == run.nodeIdx
        && (run.result.Err? ==> r == Err(CouldNotGetBlocks(hash, run.result.error)))
        && (run.result.Ok? ==> run.result.value.BlocksParsed? && r == Ok(run.result.value.blocks))
      ensures r.Ok? ==> 0 < |r.value| <= parents as int && IsHashChain(env, r.value, hash)
    {
      var req := BlockRequest(hash, height, parents);
      ghost var idx0 := nodeIdx;
      var res, trace := Get(BlockReq(req), maxAttempts, net);
      if res.Err? {
        return Err(CouldNotGetBlocks(hash, res.error));
      }
      ghost var data := AcceptedData(BlockReq(req), net, idx0);
      r := Ok(res.value.blocks);
      assert BlocksVerdict(env, req, data) == r;
      BlocksAccepted(env, req, data);
    }

    /** GetCode. */
    method GetCode(hash: Hash, net: Network) returns (r: Result<Bytes, Error>)
      requires Valid()
      modifies this
      ensures Valid()
      ensures var run := GetRun(env, stateSyncNodes, CodeReq(CodeRequest(hash)), net, maxAttempts, old(nodeIdx));
        && nodeIdx == run.nodeIdx
        && (run.result.Err? ==> r == Err(CouldNotGetCode(hash, run.result.error)))
        && (run.result.Ok? ==> run.result.value.CodeParsed? && r == Ok(run.result.value.code.data))
      ensures r.Ok? ==> |r.value| > 0 && env.keccak256(r.value) == hash
    {
      var req := CodeRequest(hash);
      ghost var idx0 := nodeIdx;
      var res, trace := Get(CodeReq(req), maxAttempts, net);
      if res.Err? {
        return Err(CouldNotGetCode(hash, res.error));
      }
      ghost var data := AcceptedData(CodeReq(req), net, idx0);
      r := Ok(res.value.code.data);
      assert ParseCode(env, req, data) == Ok(res.value.code);
    }

    /** The response bytes of the attempt that a successful run accepted. */
    ghost function AcceptedData(request: Request, net: Network, idx: nat): (data: Bytes)
      requires |stateSyncNodes| > 0 ==> idx < |stateSyncNodes|
      requires GetRun(env, stateSyncNodes, request, net, maxAttempts, idx).result.Ok?
      ensures Verdict(env, request, data) == GetRun(env, stateSyncNodes, request, net, maxAttempts, idx).result
    {
      var run := GetRun(env, stateSyncNodes, request, net, maxAttempts, idx);
      GetSucceeds(env, stateSyncNodes, request, net, maxAttempts, idx);
      run.attempts[|run.attempts| - 1].reply.data
    }
  }
}
