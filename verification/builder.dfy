/** The `HuffmanMap` constructor of HuffmanMap.kt: the greedy merge loop over a priority
    queue of (node, weight) entries, the choice of the root, and the `codesTable`;
    and `String.toHuffmanMap`, which feeds it the counts of `getCharOccurRate`. */
module Builder {
  import opened Wrappers
  import opened CodeTree
  import opened Decoding
  import opened Encoding
  import opened Frequency

  /** A queue entry: a subtree and its weight. */
  type Entry<T> = (Node<T>, int)

  /** The sum of the weights of the entries. */
  function TotalWeight<T>(q: seq<Entry<T>>): int {
    if q == [] then 0 else q[0].1 + TotalWeight(q[1..])
  }

  /** The sum of the counts of the input pairs. */
  function TotalCount<T>(ps: seq<(T, int)>): int {
    if ps == [] then 0 else ps[0].1 + TotalCount(ps[1..])
  }

  /** The leaf symbols of all the entries' subtrees, entry by entry. */
  function QueueLeaves<T>(q: seq<Entry<T>>): seq<T> {
    if q == [] then [] else Leaves(q[0].0) + QueueLeaves(q[1..])
  }

  lemma {:induction false} TotalWeightAppend<T>(a: seq<Entry<T>>, b: seq<Entry<T>>)
    ensures TotalWeight(a + b) == TotalWeight(a) + TotalWeight(b)
  {
    if a == [] {
      assert a + b == b;
    } else {
      assert (a + b)[1..] == a[1..] + b;
      TotalWeightAppend(a[1..], b);
    }
  }

  lemma {:induction false} QueueLeavesAppend<T>(a: seq<Entry<T>>, b: seq<Entry<T>>)
    ensures QueueLeaves(a + b) == QueueLeaves(a) + QueueLeaves(b)
  {
    if a == [] {
      assert a + b == b;
    } else {
      assert (a + b)[1..] == a[1..] + b;
      QueueLeavesAppend(a[1..], b);
    }
  }

  /** The queue without its entry at position `i`. */
  function RemoveAt<T>(q: seq<T>, i: nat): (r: seq<T>)
    requires i < |q|
    ensures |r| == |q| - 1
  {
    q[..i] + q[i + 1..]
  }

  /** Taking an entry out of the queue takes its weight out of the total. */
  lemma RemoveAtWeight<T>(q: seq<Entry<T>>, i: nat)
    requires i < |q|
    ensures TotalWeight(q) == q[i].1 + TotalWeight(RemoveAt(q, i))
  {
    assert q == q[..i] + q[i..];
    TotalWeightAppend(q[..i], q[i..]);
    assert q[i..][1..] == q[i + 1..];
    TotalWeightAppend(q[..i], q[i + 1..]);
  }

  /** Taking an entry out of the queue takes its leaves out of the queue's leaves. */
  lemma RemoveAtLeaves<T>(q: seq<Entry<T>>, i: nat)
    requires i < |q|
    ensures multiset(QueueLeaves(q)) == multiset(Leaves(q[i].0)) + multiset(QueueLeaves(RemoveAt(q, i)))
  {
    assert q == q[..i] + q[i..];
    QueueLeavesAppend(q[..i], q[i..]);
    assert q[i..][1..] == q[i + 1..];
    QueueLeavesAppend(q[..i], q[i + 1..]);
  }

  /** Entry `i` has a weight no greater than any other in the queue:
      what `PriorityQueue.remove` may return. */
  ghost predicate IsMinimum<T>(q: seq<Entry<T>>, i: nat) {
    i < |q| && forall k :: 0 <= k < |q| ==> q[i].1 <= q[k].1
  }

  /** The explicit tie-break of this model: the first entry of least weight.
      `PriorityQueue` leaves the order among equal weights unspecified. */
  method FirstMinimum<T>(q: seq<Entry<T>>) returns (i: nat)
    requires |q| > 0
    ensures IsMinimum(q, i)
    ensures forall k :: 0 <= k < i ==> q[k].1 > q[i].1
  {
    i := 0;
    for k := 1 to |q|
      invariant i < k
      invariant forall j :: 0 <= j < k ==> q[i].1 <= q[j].1
      invariant forall j :: 0 <= j < i ==> q[j].1 > q[i].1
    {
      if q[k].1 < q[i].1 {
        i := k;
      }
    }
  }

  /** One iteration of the loop at lines 15-19, for ANY two minimum entries the queue
      hands out: take out `first` at `i`, then `second` at `j` of what is left, and push
      their parent with the summed weight. */
  function Merge<T>(q: seq<Entry<T>>, i: nat, j: nat): seq<Entry<T>>
    requires IsMinimum(q, i) && IsMinimum(RemoveAt(q, i), j)
  {
    var first := q[i];
    var rest := RemoveAt(q, i);
    var second := rest[j];
    RemoveAt(rest, j) + [(Parent(first.0, second.0), first.1 + second.1)]
  }

  /** Whatever the tie-break, an iteration shrinks the queue by one, keeps the total
      weight, and neither adds nor drops a leaf. */
  lemma MergePreserves<T>(q: seq<Entry<T>>, i: nat, j: nat)
    requires IsMinimum(q, i) && IsMinimum(RemoveAt(q, i), j)
    ensures |Merge(q, i, j)| == |q| - 1
    ensures TotalWeight(Merge(q, i, j)) == TotalWeight(q)
    ensures multiset(QueueLeaves(Merge(q, i, j))) == multiset(QueueLeaves(q))
  {
    var rest := RemoveAt(q, i);
    var left := RemoveAt(rest, j);
    var merged := (Parent(q[i].0, rest[j].0), q[i].1 + rest[j].1);
    assert Merge(q, i, j) == left + [merged];
    RemoveAtWeight(q, i);
    RemoveAtWeight(rest, j);
    RemoveAtLeaves(q, i);
    RemoveAtLeaves(rest, j);
    TotalWeightAppend(left, [merged]);
    QueueLeavesAppend(left, [merged]);
    assert [merged][1..] == [];
    assert QueueLeaves([merged]) == Leaves(q[i].0) + Leaves(rest[j].0);
  }

  /** The two entries an iteration merges weigh no more than any entry left in the queue. */
  lemma MergeTakesLightest<T>(q: seq<Entry<T>>, i: nat, j: nat)
    requires IsMinimum(q, i) && IsMinimum(RemoveAt(q, i), j)
    ensures var left := RemoveAt(RemoveAt(q, i), j);
            forall k :: 0 <= k < |left| ==> q[i].1 <= left[k].1 && RemoveAt(q, i)[j].1 <= left[k].1
  {
  }

  /** A non-empty queue has an entry of least weight. */
  lemma {:induction false} MinimumExists<T>(q: seq<Entry<T>>)
    requires |q| > 0
    ensures exists i: nat :: IsMinimum(q, i)
  {
    if |q| == 1 {
      assert IsMinimum(q, 0);
    } else {
      MinimumExists(q[1..]);
      var i: nat :| IsMinimum(q[1..], i);
      if q[0].1 <= q[1..][i].1 {
        assert IsMinimum(q, 0);
      } else {
        assert IsMinimum(q, i + 1);
      }
    }
  }

  /** The queue as seeded at line 14: one leaf per input pair, weighted by its count. */
  function Seed<T>(symbols: seq<(T, int)>): (q: seq<Entry<T>>)
    ensures |q| == |symbols|
    ensures TotalWeight(q) == TotalCount(symbols)
    ensures QueueLeaves(q) == Symbols(symbols)
  {
    if symbols == [] then []
    else
      assert Symbols(symbols) == [symbols[0].0] + Symbols(symbols[1..]);
      [(Leaf(symbols[0].0), symbols[0].1)] + Seed(symbols[1..])
  }

  /** Lines 12-24: merge until one entry is left and return it as (root, weight).
      An empty input throws IllegalArgumentException. The root's weight is the sum of
      the counts, its leaves are the input symbols rearranged, and it is a single leaf
      exactly when there was a single pair. */
  method BuildTree<T>(symbols: seq<(T, int)>) returns (r: Result<Entry<T>>)
    ensures r.Err? <==> |symbols| == 0
    ensures r.Err? ==> r.error == IllegalArgument
    ensures r.Ok? ==> r.value.1 == TotalCount(symbols)
    ensures r.Ok? ==> multiset(Leaves(r.value.0)) == multiset(Symbols(symbols))
    ensures r.Ok? ==> (r.value.0.Leaf? <==> |symbols| == 1)
  {
    var queue := Seed(symbols);
    while |queue| > 1
      invariant 0 < |queue| <= |symbols| || |queue| == |symbols| == 0
      invariant TotalWeight(queue) == TotalCount(symbols)
      invariant multiset(QueueLeaves(queue)) == multiset(Symbols(symbols))
      decreases |queue|
    {
      var i := FirstMinimum(queue);
      var j := FirstMinimum(RemoveAt(queue, i));
      MergePreserves(queue, i, j);
      queue := Merge(queue, i, j);
    }
    if |queue| == 1 {
      assert queue[1..] == [];
      assert QueueLeaves(queue) == Leaves(queue[0].0);
      assert TotalWeight(queue) == queue[0].1;
      r := Ok(queue[0]);
      assert |Leaves(queue[0].0)| == |symbols|;
    } else {
      r := Err(IllegalArgument);
    }
  }

  /** The loop of lines 12-24 with NO tie-break rule: each iteration takes any two
      minimum entries. It keeps every guarantee of `BuildTree`, so none of them rests on
      the order `PriorityQueue` gives equal weights. */
  ghost method BuildTreeAnyTieBreak<T>(symbols: seq<(T, int)>) returns (r: Result<Entry<T>>)
    ensures r.Err? <==> |symbols| == 0
    ensures r.Err? ==> r.error == IllegalArgument
    ensures r.Ok? ==> r.value.1 == TotalCount(symbols)
    ensures r.Ok? ==> multiset(Leaves(r.value.0)) == multiset(Symbols(symbols))
    ensures r.Ok? ==> (r.value.0.Leaf? <==> |symbols| == 1)
  {
    var queue := Seed(symbols);
    while |queue| > 1
      invariant 0 < |queue| <= |symbols| || |queue| == |symbols| == 0
      invariant TotalWeight(queue) == TotalCount(symbols)
      invariant multiset(QueueLeaves(queue)) == multiset(Symbols(symbols))
      decreases |queue|
    {
      MinimumExists(queue);
      var i: nat :| IsMinimum(queue, i);
      MinimumExists(RemoveAt(queue, i));
      var j: nat :| IsMinimum(RemoveAt(queue, i), j);
      MergePreserves(queue, i, j);
      queue := Merge(queue, i, j);
    }
    if |queue| == 1 {
      assert queue[1..] == [];
      assert QueueLeaves(queue) == Leaves(queue[0].0);
      assert TotalWeight(queue) == queue[0].1;
      r := Ok(queue[0]);
      assert |Leaves(queue[0].0)| == |symbols|;
    } else {
      r := Err(IllegalArgument);
    }
  }

  /** Lines 25-29: the code of every input symbol, where a symbol without one would throw.
      The table exists exactly when every input symbol is held by a leaf; its keys are
      then the input symbols and each value is that symbol's `getCode`. */
  function CodeTable<T(==)>(root: Node<T>, symbols: seq<(T, int)>): (r: Option<map<T, string>>)
    ensures r.Some? <==> forall i :: 0 <= i < |symbols| ==> symbols[i].0 in Leaves(root)
    ensures r.Some? ==> r.value.Keys == set s | s in Symbols(symbols)
    ensures r.Some? ==> forall s :: s in r.value ==> GetCode(root, s) == Some(r.value[s])
    decreases |symbols|
  {
    if symbols == [] then Some(map[])
    else
      var init := symbols[..|symbols| - 1];
      var last := symbols[|symbols| - 1].0;
      assert Symbols(symbols) == Symbols(init) + [last];
      match CodeTable(root, init)
      case None => None
      case Some(codes) =>
        match GetCode(root, last)
        case None => None
        case Some(c) => Some(codes[last := c])
  }

  /** The state of a constructed `HuffmanMap`: its root and its `codesTable`. The table is
      a `LinkedHashMap`, so it is a map together with the order its keys were first put in;
      the screen lists the codes in that order. */
  datatype HuffmanMap<T> = HuffmanMap(root: Node<T>, codesTable: map<T, string>, keyOrder: seq<T>)

  /** No code in the table is a prefix of the code of another symbol. */
  ghost predicate PrefixFree<T>(codes: map<T, string>) {
    forall s1, s2 :: s1 in codes && s2 in codes && s1 != s2 ==> !IsPrefix(codes[s1], codes[s2])
  }

  /** The constructor `HuffmanMap(symbols)`. It throws IllegalArgumentException exactly
      on an empty list, and never at line 27. The table has one code per input symbol,
      the one `getCode` finds in the tree. With two or more pairs every code is non-empty
      and the codes are prefix-free; a single pair gets the empty code. The table's keys
      keep the order they were first put in by the loop of line 26. */
  method NewHuffmanMap<T(==)>(symbols: seq<(T, int)>) returns (r: Result<HuffmanMap<T>>)
    ensures r.Err? <==> |symbols| == 0
    ensures r.Err? ==> r.error == IllegalArgument
    ensures r.Ok? ==> multiset(Leaves(r.value.root)) == multiset(Symbols(symbols))
    ensures r.Ok? ==> forall s :: s in r.value.codesTable <==> s in Symbols(symbols)
    ensures r.Ok? ==> forall s :: s in r.value.codesTable ==> GetCode(r.value.root, s) == Some(r.value.codesTable[s])
    ensures r.Ok? ==> (r.value.root.Parent? <==> |symbols| >= 2)
    ensures r.Ok? && |symbols| >= 2 ==> forall s :: s in r.value.codesTable ==> |r.value.codesTable[s]| >= 1
    ensures r.Ok? ==> PrefixFree(r.value.codesTable)
    ensures r.Ok? && |symbols| == 1 ==> r.value.codesTable == map[symbols[0].0 := ""]
    ensures r.Ok? ==> r.value.keyOrder == FirstOccurrences(Symbols(symbols))
  {
    var tree := BuildTree(symbols);
    if tree.Err? {
      return Err(tree.error);
    }
    var root := tree.value.0;
    CodeTableOfTree(root, symbols);
    r := Ok(HuffmanMap(root, CodeTable(root, symbols).value, FirstOccurrences(Symbols(symbols))));
  }

  /** The code table of a tree built from `symbols` exists, is prefix-free, has no empty
      code when the root is a `Parent`, and is `{s: ""}` for a single pair. */
  lemma CodeTableOfTree<T>(root: Node<T>, symbols: seq<(T, int)>)
    requires |symbols| >= 1
    requires multiset(Leaves(root)) == multiset(Symbols(symbols))
    requires root.Parent? <==> |symbols| >= 2
    ensures CodeTable(root, symbols).Some?
    ensures PrefixFree(CodeTable(root, symbols).value)
    ensures |symbols| >= 2 ==> forall s :: s in CodeTable(root, symbols).value ==> |CodeTable(root, symbols).value[s]| >= 1
    ensures |symbols| == 1 ==> CodeTable(root, symbols).value == map[symbols[0].0 := ""]
  {
    assert forall i :: 0 <= i < |symbols| ==> symbols[i].0 in Leaves(root) by {
      forall i | 0 <= i < |symbols|
        ensures symbols[i].0 in Leaves(root)
      {
        assert Symbols(symbols)[i] == symbols[i].0;
        assert symbols[i].0 in multiset(Symbols(symbols));
      }
    }
    var codes := CodeTable(root, symbols).value;
    forall s1, s2 | s1 in codes && s2 in codes && s1 != s2
      ensures !IsPrefix(codes[s1], codes[s2])
    {
      NoCodeIsPrefixOfAnother(root, s1, s2);
    }
    if |symbols| == 1 {
      assert Symbols(symbols) == [symbols[0].0];
      assert codes.Keys == {symbols[0].0};
    }
  }

  /** `encodeText` on a constructed map. */
  function Encode<T(==)>(m: HuffmanMap<T>, text: seq<T>): string {
    EncodeText(m.root, text)
  }

  /** `String.toHuffmanMap`: count the symbols of `text` and build the map. It throws
      exactly on an empty text; otherwise every symbol of the text gets a code, and when
      the text holds two or more distinct symbols, decoding its encoding gives it back. */
  method ToHuffmanMap<T(==)>(text: seq<T>) returns (r: Result<HuffmanMap<T>>)
    ensures r.Err? <==> text == []
    ensures r.Ok? ==> forall s :: s in r.value.codesTable <==> s in text
    ensures r.Ok? ==> r.value.keyOrder == FirstOccurrences(text)
    ensures r.Ok? ==> (r.value.root.Parent? <==> exists i :: 0 <= i < |text| && text[i] != text[0])
    ensures r.Ok? && r.value.root.Parent? ==> SymbolsByCode(r.value.root, Encode(r.value, text)) == Ok(text)
  {
    var counts := CharOccurRate(text);
    r := NewHuffmanMap(counts);
    if r.Ok? {
      var root := r.value.root;
      FirstOccurrencesOfDistinct(Symbols(counts));
      PairCountTellsDistinct(counts, text);
      if root.Parent? {
        TextSymbolsAreLeaves(counts, root, text);
        DecodeEncodeRoundTrip(root, text);
      }
    }
  }

  /** Every symbol of the text is held by a leaf of a tree built from its counts. */
  lemma TextSymbolsAreLeaves<T>(counts: seq<(T, int)>, root: Node<T>, text: seq<T>)
    requires forall c :: c in Symbols(counts) <==> c in text
    requires multiset(Leaves(root)) == multiset(Symbols(counts))
    ensures forall i :: 0 <= i < |text| ==> text[i] in Leaves(root)
  {
    forall i | 0 <= i < |text|
      ensures text[i] in Leaves(root)
    {
      assert text[i] in Symbols(counts);
      assert text[i] in multiset(Symbols(counts));
    }
  }

  /** The counts of a non-empty text hold two or more pairs exactly when
      the text holds two distinct symbols. */
  lemma PairCountTellsDistinct<T>(counts: seq<(T, int)>, text: seq<T>)
    requires text != [] && Distinct(Symbols(counts))
    requires forall c :: c in Symbols(counts) <==> c in text
    ensures |counts| >= 2 <==> exists i :: 0 <= i < |text| && text[i] != text[0]
  {
    assert text[0] in Symbols(counts);
    if |counts| >= 2 {
      var a, b := Symbols(counts)[0], Symbols(counts)[1];
      assert a != b && a in text && b in text;
      var c := if a != text[0] then a else b;
      var i :| 0 <= i < |text| && text[i] == c;
    }
    if exists i :: 0 <= i < |text| && text[i] != text[0] {
      var i :| 0 <= i < |text| && text[i] != text[0];
      assert text[i] in Symbols(counts);
      DistinctSymbolsCount(counts, text[0], text[i]);
    }
  }

  /** Two different symbols among the keys make at least two pairs. */
  lemma DistinctSymbolsCount<T>(ps: seq<(T, int)>, a: T, b: T)
    requires a in Symbols(ps) && b in Symbols(ps) && a != b
    ensures |ps| >= 2
  {
  }
}
