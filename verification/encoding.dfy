/** `encodeText` of HuffmanMap.kt and its relation to the decoder. */
module Encoding {
  import opened Wrappers
  import opened CodeTree
  import opened Decoding

  /** The code a symbol contributes to an encoding: its `getCode`, or "" when no leaf holds it. */
  function CodeOrEmpty<T(==)>(root: Node<T>, s: T): string {
    match GetCode(root, s)
    case Some(c) => c
    case None => ""
  }

  /** `encodeText`: the codes of the symbols of `text`, in order; unknown symbols add nothing. */
  function EncodeText<T(==)>(root: Node<T>, text: seq<T>): (r: string)
    ensures IsBits(r)
  {
    if text == [] then ""
    else CodeOrEmpty(root, text[0]) + EncodeText(root, text[1..])
  }

  /** Encoding distributes over concatenation of texts. */
  lemma {:induction false} EncodeTextAppend<T>(root: Node<T>, a: seq<T>, b: seq<T>)
    ensures EncodeText(root, a + b) == EncodeText(root, a) + EncodeText(root, b)
  {
    if a == [] {
      assert a + b == b;
    } else {
      assert (a + b)[0] == a[0];
      assert (a + b)[1..] == a[1..] + b;
      EncodeTextAppend(root, a[1..], b);
    }
  }

  /** A symbol no leaf holds is skipped silently, wherever it stands in the text. */
  lemma EncodeTextSkipsUnknown<T>(root: Node<T>, a: seq<T>, s: T, b: seq<T>)
    requires s !in Leaves(root)
    ensures EncodeText(root, a + [s] + b) == EncodeText(root, a + b)
  {
    EncodeTextAppend(root, a + [s], b);
    EncodeTextAppend(root, a, [s]);
    EncodeTextAppend(root, a, b);
  }

  /** A single known symbol encodes to its code. */
  lemma EncodeTextSingle<T>(root: Node<T>, s: T)
    requires s in Leaves(root)
    ensures EncodeText(root, [s]) == GetCode(root, s).value
  {
  }

  /** Round trip: in a tree of two or more leaves, decoding the encoding of a text whose
      symbols all have codes gives the text back (with `getSymbolsByCode` corrected). */
  lemma {:induction false} DecodeEncodeRoundTrip<T>(root: Node<T>, text: seq<T>)
    requires root.Parent?
    requires forall i :: 0 <= i < |text| ==> text[i] in Leaves(root)
    ensures SymbolsByCode(root, EncodeText(root, text)) == Ok(text)
  {
    if text != [] {
      var s := text[0];
      var c := GetCode(root, s).value;
      var tail := EncodeText(root, text[1..]);
      DecodeStepInvertsGetCode(root, s, tail);
      DecodeEncodeRoundTrip(root, text[1..]);
      assert c + tail != [] by { ParentCodesAreNonEmpty(root, s); }
      assert [s] + text[1..] == text;
    }
  }

  /** No symbol occurs at two leaves. */
  predicate DistinctLeaves<T(==)>(n: Node<T>) {
    forall i, j :: 0 <= i < j < |Leaves(n)| ==> Leaves(n)[i] != Leaves(n)[j]
  }

  /** When leaves are distinct, the only path to the leaf of `s` is `s`'s code. */
  lemma {:induction false} PathToLeafIsCode<T>(n: Node<T>, p: string, s: T)
    requires DistinctLeaves(n)
    requires Follow(n, p) == Some(Leaf(s))
    ensures GetCode(n, s) == Some(p)
  {
    match n
    case Leaf(_) =>
    case Parent(l, r) =>
      assert Leaves(n) == Leaves(l) + Leaves(r);
      assert DistinctLeaves(l) by {
        forall i, j | 0 <= i < j < |Leaves(l)| ensures Leaves(l)[i] != Leaves(l)[j] {
          assert Leaves(l)[i] == Leaves(n)[i] && Leaves(l)[j] == Leaves(n)[j];
        }
      }
      assert DistinctLeaves(r) by {
        var m := |Leaves(l)|;
        forall i, j | 0 <= i < j < |Leaves(r)| ensures Leaves(r)[i] != Leaves(r)[j] {
          assert Leaves(r)[i] == Leaves(n)[m + i] && Leaves(r)[j] == Leaves(n)[m + j];
        }
      }
      if p[0] == '0' {
        PathToLeafIsCode(l, p[1..], s);
        assert p == "0" + p[1..];
      } else {
        PathToLeafIsCode(r, p[1..], s);
        assert p == "1" + p[1..];
        var j := LeafIndex(r, p[1..]);
        forall i | 0 <= i < |Leaves(l)|
          ensures Leaves(l)[i] != s
        {
          assert Leaves(l)[i] == Leaves(n)[i] && Leaves(n)[|Leaves(l)| + j] == s;
        }
      }
  }

  /** An accepted non-empty bit string starts with the code of the first symbol decoded. */
  lemma DecodedCodewordIsCode<T>(root: Node<T>, bits: string)
    requires root.Parent? && DistinctLeaves(root) && bits != []
    requires Descend(root, bits).Ok?
    ensures var step := Descend(root, bits);
            var c := bits[..|bits| - |step.value.1|];
            GetCode(root, step.value.0.value) == Some(c) && bits == c + step.value.1
  {
    var step := Descend(root, bits);
    var rest := step.value.1;
    PathToLeafIsCode(root, bits[..|bits| - |rest|], step.value.0.value);
    SuffixSplits(rest, bits);
  }

  /** Encoding a text that starts with `s`. */
  lemma EncodeTextCons<T>(root: Node<T>, s: T, tail: seq<T>)
    ensures EncodeText(root, [s] + tail) == CodeOrEmpty(root, s) + EncodeText(root, tail)
  {
    assert ([s] + tail)[1..] == tail;
  }

  /** The converse round trip: when leaves are distinct, any bit string the corrected
      decoder accepts is the encoding of what it decodes to. */
  lemma {:induction false} EncodeDecodeRoundTrip<T>(root: Node<T>, bits: string, text: seq<T>)
    requires root.Parent? && DistinctLeaves(root)
    requires SymbolsByCode(root, bits) == Ok(text)
    ensures EncodeText(root, text) == bits
    decreases |bits|
  {
    if bits != [] {
      SymbolsByCodeUnfold(root, bits);
      var step := Descend(root, bits);
      var s, rest := step.value.0.value, step.value.1;
      var tail := SymbolsByCode(root, rest).value;
      DecodedCodewordIsCode(root, bits);
      EncodeDecodeRoundTrip(root, rest, tail);
      EncodeTextCons(root, s, tail);
    }
  }
}
