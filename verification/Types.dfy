/** Vocabulary shared by every layer of the model. */
module Types {

  datatype Option<+T> = None | Some(value: T)

  /** A cell of memory. Cells hold bytes. They are modelled as natural numbers, so that an encoded integer always
      decodes to itself: what its width cannot hold goes to its top cell. That this never happens is proved and not
      assumed: every structure keeps all cells of its memory below 256 (`AllBytes`, `Genuine`). */
  type Cell = nat

  type Bytes = seq<Cell>

  ghost predicate AllBytes(s: Bytes) {
    forall i :: 0 <= i < |s| ==> s[i] < 256
  }

  /** Addresses have 64 bits, lengths of keys and values 32. */
  const ADDRESS_SPACE: nat := 0x1_0000_0000_0000_0000
  const MAX_LENGTH: nat := 0xFFFF_FFFF

  /** Page and chunk addresses are offsets into the memory; address 0 is NULL. */
  type Address = nat

  const NULL: Address := 0

  /** Keys are only ever compared. A key type has countably many values (each has a byte
      encoding), and every countable linear order embeds in the reals; which reals stand for the keys of a
      type is said by its codec. */
  type Key = real

  /** Values are stored as their encoding. */
  type Value = Bytes

  datatype Entry = Entry(key: Key, value: Value)
}
