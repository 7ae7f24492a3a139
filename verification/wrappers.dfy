/** Failure-carrying datatypes shared by the model: Kotlin's nullable results become
    Option, and the exceptions the Huffman engine throws become the Err case of Result. */
module Wrappers {

  /** A value that may be absent (Kotlin's `T?`). */
  datatype Option<+T> = None | Some(value: T)

  /** The exceptions the engine can raise. */
  datatype Error =
    | IllegalArgument     // java.lang.IllegalArgumentException
    | IndexOutOfBounds    // java.lang.StringIndexOutOfBoundsException

  /** A computation that either returns a value or throws one of the exceptions above. */
  datatype Result<+T> = Ok(value: T) | Err(error: Error)

  /** Bit strings: the codes and encodings the engine produces use only '0' and '1'. */
  predicate IsBits(s: string) {
    forall i :: 0 <= i < |s| ==> s[i] == '0' || s[i] == '1'
  }

  /** `p` is a prefix of `s`. */
  predicate IsPrefix<T(==)>(p: seq<T>, s: seq<T>) {
    |p| <= |s| && s[..|p|] == p
  }

  /** `p` is a suffix of `s`. */
  predicate IsSuffix<T(==)>(p: seq<T>, s: seq<T>) {
    |p| <= |s| && s[|s| - |p|..] == p
  }

  /** A sequence is what comes before its suffix, followed by the suffix. */
  lemma SuffixSplits<T>(p: seq<T>, s: seq<T>)
    requires IsSuffix(p, s)
    ensures s == s[..|s| - |p|] + p
  {
    assert s == s[..|s| - |p|] + s[|s| - |p|..];
  }
}
