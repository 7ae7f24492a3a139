/** The code tree of HuffmanMap.kt: `NodeSymbol` leaves and `NodeParent` internal nodes,
    the recursive code search `getCode`, and the facts that make its results a prefix code. */
module CodeTree {
  import opened Wrappers

  /** A code tree node. `Parent` always has exactly two children, so every tree is full. */
  datatype Node<T> = Leaf(sym: T) | Parent(left: Node<T>, right: Node<T>)

  /** The symbols held by the leaves of `n`, left to right. */
  function Leaves<T>(n: Node<T>): (r: seq<T>)
    ensures |r| >= 1
  {
    match n
    case Leaf(s) => [s]
    case Parent(l, r) => Leaves(l) + Leaves(r)
  }

  /** The number of internal (`Parent`) nodes of `n`. */
  function InternalCount<T>(n: Node<T>): nat {
    match n
    case Leaf(_) => 0
    case Parent(l, r) => InternalCount(l) + InternalCount(r) + 1
  }

  /** Fullness, counted: a tree whose internal nodes all have two children has
      exactly one leaf more than it has internal nodes. */
  lemma {:induction false} FullTreeLeafCount<T>(n: Node<T>)
    ensures |Leaves(n)| == InternalCount(n) + 1
  {
    match n
    case Leaf(_) =>
    case Parent(l, r) =>
      FullTreeLeafCount(l);
      FullTreeLeafCount(r);
  }

  /** The subtree reached by following `path` from `n`, '0' going left and '1' right;
      None when the path holds another character or runs on past a leaf. */
  function Follow<T>(n: Node<T>, path: string): Option<Node<T>> {
    if path == [] then Some(n)
    else match n
      case Leaf(_) => None
      case Parent(l, r) =>
        if path[0] == '0' then Follow(l, path[1..])
        else if path[0] == '1' then Follow(r, path[1..])
        else None
  }

  /** Following `p + q` is following `p`, then `q` from where `p` ended. */
  lemma {:induction false} FollowAppend<T>(n: Node<T>, p: string, q: string)
    ensures Follow(n, p + q) == (if Follow(n, p).Some? then Follow(Follow(n, p).value, q) else None)
  {
    if p != [] {
      assert (p + q)[0] == p[0];
      assert (p + q)[1..] == p[1..] + q;
      match n
      case Leaf(_) =>
      case Parent(l, r) =>
        if p[0] == '0' {
          FollowAppend(l, p[1..], q);
        } else if p[0] == '1' {
          FollowAppend(r, p[1..], q);
        }
    } else {
      assert p + q == q;
    }
  }

  /** The position in `Leaves(n)` of the leaf that `path` leads to. */
  function LeafIndex<T>(n: Node<T>, path: string): (k: nat)
    requires Follow(n, path).Some? && Follow(n, path).value.Leaf?
    ensures k < |Leaves(n)| && Leaves(n)[k] == Follow(n, path).value.sym
  {
    match n
    case Leaf(_) => 0
    case Parent(l, r) =>
      if path[0] == '0' then LeafIndex(l, path[1..])
      else |Leaves(l)| + LeafIndex(r, path[1..])
  }

  /** `NodeParent.getCode` / `NodeSymbol.getCode`: search both subtrees and prefer the left.
      The result is absent exactly when no leaf holds `s`; otherwise it is a bit string
      that leads from `n` to a leaf holding `s`. */
  function GetCode<T(==)>(n: Node<T>, s: T): (r: Option<string>)
    ensures r.None? <==> s !in Leaves(n)
    ensures r.Some? ==> IsBits(r.value) && Follow(n, r.value) == Some(Leaf(s))
  {
    match n
    case Leaf(x) => if s == x then Some("") else None
    case Parent(l, r) =>
      var leftCode := GetCode(l, s);
      var rightCode := GetCode(r, s);
      if leftCode.Some? then
        assert ("0" + leftCode.value)[1..] == leftCode.value;
        Some("0" + leftCode.value)
      else if rightCode.Some? then
        assert ("1" + rightCode.value)[1..] == rightCode.value;
        Some("1" + rightCode.value)
      else None
  }

  /** When several leaves hold `s`, the code found leads to the leftmost of them. */
  lemma {:induction false} GetCodeFindsLeftmost<T>(n: Node<T>, s: T)
    requires s in Leaves(n)
    ensures var k := LeafIndex(n, GetCode(n, s).value);
            Leaves(n)[k] == s && forall j :: 0 <= j < k ==> Leaves(n)[j] != s
  {
    match n
    case Leaf(_) =>
    case Parent(l, r) =>
      var c := GetCode(n, s).value;
      if s in Leaves(l) {
        GetCodeFindsLeftmost(l, s);
        assert c[1..] == GetCode(l, s).value;
      } else {
        GetCodeFindsLeftmost(r, s);
        assert c[1..] == GetCode(r, s).value;
        forall j | 0 <= j < |Leaves(l)|
          ensures Leaves(n)[j] != s
        {
          assert Leaves(n)[j] == Leaves(l)[j];
        }
      }
  }

  /** A path that ends at a leaf cannot be extended to another leaf. */
  lemma LeafPathIsMaximal<T>(n: Node<T>, p: string, q: string, a: T, b: T)
    requires Follow(n, p) == Some(Leaf(a))
    requires Follow(n, p + q) == Some(Leaf(b))
    ensures q == [] && a == b
  {
    FollowAppend(n, p, q);
  }

  /** Codes in the tree above the root are never empty. */
  lemma ParentCodesAreNonEmpty<T>(n: Node<T>, s: T)
    requires n.Parent? && s in Leaves(n)
    ensures |GetCode(n, s).value| >= 1
  {
  }

  /** The codes of two different symbols are never prefixes of one another. */
  lemma NoCodeIsPrefixOfAnother<T>(n: Node<T>, s1: T, s2: T)
    requires s1 in Leaves(n) && s2 in Leaves(n) && s1 != s2
    ensures !IsPrefix(GetCode(n, s1).value, GetCode(n, s2).value)
  {
  }
}
