/** Types and facts that several components share. */
module Basics {

  type Byte = x: int | 0 <= x < 256

  /** A character code; the firmware's characters have 16 bits, the debugger's 8. */
  type Char16 = x: int | 0 <= x < 0x1_0000

  type Word64 = x: int | 0 <= x < 0x1_0000_0000_0000_0000

  /** A string in memory: its only zero is the last character. */
  ghost predicate ZeroTerminated(s: seq<Char16>) {
    |s| > 0 && s[|s| - 1] == 0 && forall k :: 0 <= k < |s| - 1 ==> s[k] != 0
  }

  datatype Option<+T> = None | Some(value: T)

  lemma ConcatAssociative<T>(a: seq<T>, b: seq<T>, c: seq<T>)
    ensures (a + b) + c == a + (b + c)
  {}
}
