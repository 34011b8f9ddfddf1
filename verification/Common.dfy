/**
 Small types several modules share.
 */
module Common {

  datatype Option<+T> = None | Some(value: T)

  /** Integer comparisons. */
  datatype Pred = Eq | Ne | Ult | Ule | Ugt | Uge | Slt | Sle | Sgt | Sge

  const WORD: nat := 0x1_0000_0000_0000_0000

  /** A 64-bit word. */
  type U64 = x: nat | x < WORD
}
