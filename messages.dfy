/** Values exchanged by the state-sync client: byte strings, hashes and node
    identifiers, the three request/response pairs, decoded blocks, the errors
    the client reports, and the collaborators it calls but does not own. */
module Messages {

  newtype uint8 = x: int | 0 <= x < 0x100
  newtype uint16 = x: int | 0 <= x < 0x1_0000
  newtype uint64 = x: int | 0 <= x < 0x1_0000_0000_0000_0000

  type Bytes = seq<uint8>

  /** A 32-byte hash (common.Hash). */
  type Hash = s: Bytes | |s| == 32 witness seq(32, _ => 0)

  /** A 20-byte node identifier (ids.ShortID). */
  type NodeId = s: Bytes | |s| == 20 witness seq(20, _ => 0)

  datatype Option<+T> = None | Some(value: T)

  datatype Result<+T, +E> = Ok(value: T) | Err(error: E)

  /** A request for the leaves of the trie under `root` in the key range
      starting at `start` (None stands for a nil start) up to `end`, at most
      `limit` of them. */
  datatype LeafsRequest = LeafsRequest(root: Hash, start: Option<Bytes>, end: Bytes, limit: uint16)

  /** A request for `parents` blocks ending at the block `hash` of height `height`. */
  datatype BlockRequest = BlockRequest(hash: Hash, height: uint64, parents: uint16)

  /** A request for the contract code whose Keccak-256 hash is `hash`. */
  datatype CodeRequest = CodeRequest(hash: Hash)

  datatype Request =
    | LeafsReq(leafs: LeafsRequest)
    | BlockReq(block: BlockRequest)
    | CodeReq(code: CodeRequest)

  /** `more` is not trusted from the wire: the leaf validator overwrites it
      with the range-proof verifier's answer. */
  datatype LeafsResponse = LeafsResponse(
    keys: seq<Bytes>, vals: seq<Bytes>, more: bool,
    proofKeys: seq<Bytes>, proofVals: seq<Bytes>)

  /** The RLP encodings of the requested blocks, tip first. */
  datatype BlockResponse = BlockResponse(blocks: seq<Bytes>)

  datatype CodeResponse = CodeResponse(data: Bytes)

  /** A decoded block: the header carries the parent hash; everything else
      in the header and the body is opaque here. */
  datatype Header = Header(parentHash: Hash, fields: Bytes)
  datatype Block = Block(header: Header, body: Bytes)

  /** The validated result of one attempt, one variant per request kind. */
  datatype Parsed =
    | LeafsParsed(leafs: LeafsResponse)
    | BlocksParsed(blocks: seq<Block>)
    | CodeParsed(code: CodeResponse)

  /** An error produced by a collaborator (codec, transport, RLP decoder,
      range-proof verifier); its content is not inspected. */
  datatype ExtError = ExtError(message: string)

  datatype Error =
      /** a collaborator's error passed on unchanged */
    | External(cause: ExtError)
      /** the message of errUnmarshalResponse around a wrapped decoding error */
    | UnmarshalResponse(cause: ExtError)
      /** errTooManyLeaves, with the number of keys and the limit */
    | TooManyLeaves(keys: nat, limit: uint16)
      /** an empty key list that comes without a proof */
    | EmptyKeysWithoutProof
      /** proof keys and proof values of different lengths */
    | ProofLengthMismatch(proofKeys: nat, proofVals: nat)
      /** the message of errInvalidRangeProof around the wrapped verifier's error */
    | InvalidRangeProof(cause: ExtError)
      /** errEmptyResponse */
    | EmptyResponse
      /** errTooManyBlocks */
    | TooManyBlocks
      /** errHashMismatch, with the hash found and the hash expected */
    | HashMismatch(got: Hash, expected: Hash)
      /** the message of errExceededRetryLimit and the attempt count around the
          wrapped last error seen (None: no attempt was made) */
    | ExceededRetryLimit(attempts: uint8, last: Option<Error>)
      /** GetBlocks' wrapping of a failed retrieval */
    | CouldNotGetBlocks(hash: Hash, reason: Error)
      /** GetCode's wrapping of a failed retrieval */
    | CouldNotGetCode(hash: Hash, reason: Error)

  /** The collaborators the client calls: the codec (request encoding and
      the three response decodings), RLP block decoding, the RLP header
      encoding that Block.Hash hashes, Keccak-256 and trie.VerifyRangeProof
      (Ok(more) on success). All are arbitrary total functions here. */
  datatype Env = Env(
    requestToBytes: Request -> Result<Bytes, ExtError>,
    unmarshalLeafs: Bytes -> Result<LeafsResponse, ExtError>,
    unmarshalBlocks: Bytes -> Result<BlockResponse, ExtError>,
    unmarshalCode: Bytes -> Result<CodeResponse, ExtError>,
    decodeBlock: Bytes -> Result<Block, ExtError>,
    encodeHeader: Header -> Bytes,
    keccak256: Bytes -> Hash,
    verifyRangeProof: (Hash, Bytes, Bytes, seq<Bytes>, seq<Bytes>, Option<map<Bytes, Bytes>>) -> Result<bool, ExtError>)
}
