/** The ledger's records: transactions, blocks and the block hash. */
module Blocks {

  /** One transfer waiting in, or sealed into, a block. */
  datatype Transaction = Transaction(sender: string, recipient: string, amount: int)

  /** The value stored in a block's `previousHash` field: the genesis block holds the
      integer 1, every other block a hex digest. */
  datatype HashRef = IntRef(n: int) | TextRef(s: string)

  /** Python truthiness of a `previousHash` argument: `0` and `""` are falsy. */
  predicate Truthy(h: HashRef) {
    match h
    case IntRef(n) => n != 0
    case TextRef(s) => s != ""
  }

  /** A sealed block; `index` is its 1-based position in the chain it was created in. */
  datatype Block = Block(
    index: int,
    timestamp: real,
    transactions: seq<Transaction>,
    proof: int,
    previousHash: HashRef)

  /** The library primitives the ledger relies on, left uninterpreted: the SHA-256 hex
      digest of a text and the sorted-keys JSON serialisation of a block. */
  datatype Crypto = Crypto(sha256Hex: string -> string, canonicalJson: Block -> string)

  /** Hash of a block: the hex digest of its canonical JSON text. */
  function BlockHash(c: Crypto, b: Block): string {
    c.sha256Hex(c.canonicalJson(b))
  }

  const GenesisProof: int := 100
  const GenesisPreviousHash: HashRef := IntRef(1)
}
