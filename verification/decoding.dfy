/** Decoding in HuffmanMap.kt: the one-codeword step `getSymbolByCode`, and the
    multi-codeword loop `getSymbolsByCode` both as written and corrected. */
module Decoding {
  import opened Wrappers
  import opened CodeTree

  /** The body of the loop in `getSymbolByCode` from `node` onward, with `code` the bits
      not yet read. At a leaf the walk returns its symbol and the rest of the bits. At a
      parent it reads one bit; with none left, `currentCode[0]` throws; a character other
      than '0' or '1' throws IllegalArgumentException. On success the bits consumed lead
      from `node` to the leaf whose symbol is returned, and the rest is a suffix of `code`. */
  function Descend<T>(node: Node<T>, code: string): (r: Result<(Option<T>, string)>)
    ensures r.Ok? ==> r.value.0.Some? && IsSuffix(r.value.1, code)
    ensures r.Ok? ==> Follow(node, code[..|code| - |r.value.1|]) == Some(Leaf(r.value.0.value))
    ensures r.Ok? && node.Parent? ==> |r.value.1| < |code|
  {
    match node
    case Leaf(s) =>
      assert code[..0] == [];
      Ok((Some(s), code))
    case Parent(l, r) =>
      if |code| == 0 then Err(IndexOutOfBounds)
      else if code[0] == '0' || code[0] == '1' then
        var next := Descend(if code[0] == '0' then l else r, code[1..]);
        if next.Ok? then
          var rest := next.value.1;
          assert code[1..][..|code| - 1 - |rest|] == code[..|code| - |rest|][1..];
          assert code[|code| - |rest|..] == code[1..][|code| - 1 - |rest|..];
          next
        else next
      else Err(IllegalArgument)
  }

  /** `getSymbolByCode(code)`: the loop tests the ORIGINAL `code`, so an empty code gives
      `(null, "")` and a non-empty one either yields a symbol or throws. With a single
      leaf as root nothing is consumed: the symbol comes back with the whole code. */
  function GetSymbolByCode<T>(root: Node<T>, code: string): (r: Result<(Option<T>, string)>)
    ensures code == [] ==> r == Ok((None, []))
    ensures code != [] && r.Ok? ==> r.value.0.Some? && IsSuffix(r.value.1, code)
    ensures code != [] && r.Ok? && root.Parent? ==> |r.value.1| < |code|
    ensures code != [] && root.Leaf? ==> r == Ok((Some(root.sym), code))
  {
    if code == [] then Ok((None, [])) else Descend(root, code)
  }

  /** A complete codeword followed by any bits decodes to its symbol and leaves the bits. */
  lemma {:induction false} DescendCodeword<T>(node: Node<T>, c: string, rest: string, s: T)
    requires Follow(node, c) == Some(Leaf(s))
    ensures Descend(node, c + rest) == Ok((Some(s), rest))
  {
    match node
    case Leaf(_) =>
      assert c == [];
      assert c + rest == rest;
    case Parent(l, r) =>
      assert (c + rest)[0] == c[0];
      assert (c + rest)[1..] == c[1..] + rest;
      if c[0] == '0' {
        DescendCodeword(l, c[1..], rest, s);
      } else {
        DescendCodeword(r, c[1..], rest, s);
      }
  }

  /** In a tree of two or more leaves, decoding inverts `getCode` for one symbol. */
  lemma DecodeStepInvertsGetCode<T>(root: Node<T>, s: T, rest: string)
    requires root.Parent? && s in Leaves(root)
    ensures GetSymbolByCode(root, GetCode(root, s).value + rest) == Ok((Some(s), rest))
  {
    var c := GetCode(root, s).value;
    DescendCodeword(root, c, rest, s);
  }

  /** Meeting a character other than '0' or '1' at a parent throws IllegalArgumentException. */
  lemma {:induction false} DescendRejectsNonBit<T>(node: Node<T>, p: string, x: char, rest: string)
    requires Follow(node, p).Some? && Follow(node, p).value.Parent?
    requires x != '0' && x != '1'
    ensures Descend(node, p + [x] + rest) == Err(IllegalArgument)
  {
    match node
    case Leaf(_) =>
    case Parent(l, r) =>
      if p != [] {
        assert (p + [x] + rest)[0] == p[0];
        assert (p + [x] + rest)[1..] == p[1..] + [x] + rest;
        if p[0] == '0' {
          DescendRejectsNonBit(l, p[1..], x, rest);
        } else {
          DescendRejectsNonBit(r, p[1..], x, rest);
        }
      } else {
        assert (p + [x] + rest)[0] == x;
      }
  }

  /** Bits that end inside the tree: reading past the end throws, because the loop tests
      `code` instead of `currentCode` and so goes on to `currentCode[0]`. */
  lemma {:induction false} DescendTruncatedThrows<T>(node: Node<T>, p: string)
    requires Follow(node, p).Some? && Follow(node, p).value.Parent?
    ensures Descend(node, p) == Err(IndexOutOfBounds)
  {
    match node
    case Leaf(_) =>
    case Parent(l, r) =>
      if p != [] {
        if p[0] == '0' {
          DescendTruncatedThrows(l, p[1..]);
        } else {
          DescendTruncatedThrows(r, p[1..]);
        }
      }
  }

  // ---------------------------------------------------------------------------
  // getSymbolsByCode, as written: line 46 passes `code`, not `currentCode`.

  /** Loop state of `getSymbolsByCode`: the remaining code and the symbols found. */
  type LoopState<T> = (string, seq<T>)

  /** One pass of the loop body as written: the step is applied to the original `code`. */
  function SymbolsByCodePass<T>(root: Node<T>, code: string, st: LoopState<T>): Result<LoopState<T>> {
    match GetSymbolByCode(root, code)
    case Err(e) => Err(e)
    case Ok((sym, rest)) =>
      if sym.Some? then Ok((rest, st.1 + [sym.value])) else Ok(st)
  }

  /** The loop state after `k` passes as written, starting from `(code, [])`;
      once the remaining code is empty the loop has ended and the state stays. */
  function SymbolsByCodeAfter<T>(root: Node<T>, code: string, k: nat): Result<LoopState<T>> {
    if k == 0 then Ok((code, []))
    else match SymbolsByCodeAfter(root, code, k - 1)
      case Err(e) => Err(e)
      case Ok(st) => if st.0 == [] then Ok(st) else SymbolsByCodePass(root, code, st)
  }

  /** `k` copies of `s`. */
  function Repeat<T>(s: T, k: nat): seq<T> {
    if k == 0 then [] else Repeat(s, k - 1) + [s]
  }

  /** A pass as written appends the first codeword's symbol and resets the remaining code. */
  lemma SymbolsByCodePassRepeats<T>(root: Node<T>, code: string, s: T, rest: string, st: LoopState<T>)
    requires GetSymbolByCode(root, code) == Ok((Some(s), rest))
    ensures SymbolsByCodePass(root, code, st) == Ok((rest, st.1 + [s]))
  {
  }

  /** As written, once the first codeword leaves bits behind the loop never ends: every
      pass decodes the same first symbol and resets the remaining code to the same bits. */
  lemma {:induction false} SymbolsByCodeAsWrittenNeverEnds<T>(root: Node<T>, code: string, s: T, rest: string, k: nat)
    requires GetSymbolByCode(root, code) == Ok((Some(s), rest)) && rest != []
    ensures SymbolsByCodeAfter(root, code, k + 1) == Ok((rest, Repeat(s, k + 1)))
  {
    if k == 0 {
      assert code != [];
      SymbolsByCodePassRepeats(root, code, s, rest, (code, []));
      assert Repeat(s, 1) == [] + [s];
    } else {
      SymbolsByCodeAsWrittenNeverEnds(root, code, s, rest, k - 1);
      SymbolsByCodePassRepeats(root, code, s, rest, (rest, Repeat(s, k)));
    }
  }

  /** The smallest input that shows it: two codewords "0" and "0" in a two-leaf tree. */
  lemma SymbolsByCodeAsWrittenLoopsOnTwoCodewords(k: nat)
    ensures SymbolsByCodeAfter(Parent(Leaf('a'), Leaf('b')), "00", k + 1) == Ok(("0", Repeat('a', k + 1)))
  {
    assert Descend(Parent(Leaf('a'), Leaf('b')), "00") == Ok((Some('a'), "0"));
    SymbolsByCodeAsWrittenNeverEnds(Parent(Leaf('a'), Leaf('b')), "00", 'a', "0", k);
  }

  // ---------------------------------------------------------------------------
  // getSymbolsByCode, corrected: each pass decodes from `currentCode`.

  /** Decode a whole bit string by repeated steps from the root, each starting on the bits
      the previous one left. A single-leaf root is excluded: there a step consumes nothing
      and the loop cannot end on any non-empty input. */
  function SymbolsByCode<T>(root: Node<T>, code: string): (r: Result<seq<T>>)
    requires root.Parent?
    ensures code == [] ==> r == Ok([])
    decreases |code|
  {
    if code == [] then Ok([])
    else match GetSymbolByCode(root, code)
      case Err(e) => Err(e)
      case Ok((sym, rest)) =>
        match SymbolsByCode(root, rest)
        case Err(e) => Err(e)
        case Ok(tail) => Ok([sym.value] + tail)
  }

  /** One step of the corrected loop: an accepted non-empty code starts with a codeword
      the step decodes, and the rest of the symbols come from the bits it leaves. */
  lemma SymbolsByCodeUnfold<T>(root: Node<T>, code: string)
    requires root.Parent? && code != [] && SymbolsByCode(root, code).Ok?
    ensures var step := GetSymbolByCode(root, code);
            && step.Ok? && step.value.0.Some?
            && SymbolsByCode(root, step.value.1).Ok?
            && SymbolsByCode(root, code).value == [step.value.0.value] + SymbolsByCode(root, step.value.1).value
  {
  }
}
