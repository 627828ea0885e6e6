/** Facts about Python lists used by the parsers: `list.index`, membership and
    the "append if not already present" idiom. */
module Lists {
  import opened Wrappers

  function Last<T>(xs: seq<T>): T
    requires xs != []
  {
    xs[|xs| - 1]
  }

  function Init<T>(xs: seq<T>): seq<T>
    requires xs != []
  {
    xs[..|xs| - 1]
  }

  predicate NoDuplicates<T(==)>(xs: seq<T>)
  {
    forall i, j :: 0 <= i < j < |xs| ==> xs[i] != xs[j]
  }

  /** `p` is the first position of `x` in `xs`. */
  predicate IsFirstAt<T(==)>(xs: seq<T>, x: T, p: int)
  {
    0 <= p < |xs| && xs[p] == x && forall j :: 0 <= j < p ==> xs[j] != x
  }

  /** `p` is the last position of `x` in `xs`. */
  predicate IsLastAt<T(==)>(xs: seq<T>, x: T, p: int)
  {
    0 <= p < |xs| && xs[p] == x && forall j :: p < j < |xs| ==> xs[j] != x
  }

  /** Python's `xs.index(x)`: the first position of `x`, or `None` where
      Python raises `ValueError`. */
  function IndexOf<T(==)>(xs: seq<T>, x: T): (r: Option<nat>)
    ensures r.Some? <==> x in xs
    ensures r.Some? ==> IsFirstAt(xs, x, r.value)
  {
    if xs == [] then None
    else if xs[0] == x then Some(0)
    else
      match IndexOf(xs[1..], x)
      case None => None
      case Some(p) => Some(p + 1)
  }

  /** The last position of `x` in `xs`, if any. */
  function LastIndexOf<T(==)>(xs: seq<T>, x: T): (r: Option<nat>)
    ensures r.Some? <==> x in xs
    ensures r.Some? ==> IsLastAt(xs, x, r.value)
  {
    if xs == [] then None
    else if Last(xs) == x then Some(|xs| - 1)
    else LastIndexOf(Init(xs), x)
  }

  lemma LastIndexOfSnoc<T>(xs: seq<T>, y: T, x: T)
    ensures LastIndexOf(xs + [y], x) == if y == x then Some(|xs|) else LastIndexOf(xs, x)
  {
    assert Init(xs + [y]) == xs;
  }

  /** The elements of `xs` in the order of their first appearance, each once:
      what a loop of `if x not in out: out.append(x)` leaves in `out`. */
  function Dedup<T(==)>(xs: seq<T>): (r: seq<T>)
    ensures NoDuplicates(r)
    ensures forall k :: 0 <= k < |r| ==> r[k] in xs
    ensures forall k :: 0 <= k < |xs| ==> xs[k] in r
  {
    if xs == [] then []
    else if Last(xs) in Init(xs) then Dedup(Init(xs))
    else Dedup(Init(xs)) + [Last(xs)]
  }

  /** `if x not in xs: xs.append(x)` */
  function AddOnce<T(==)>(xs: seq<T>, x: T): seq<T>
  {
    if x in xs then xs else xs + [x]
  }

  /** The list a map holds for `k`, empty when `k` is absent. */
  function Lookup<K, T>(m: map<K, seq<T>>, k: K): seq<T>
  {
    if k in m then m[k] else []
  }

  /** Appending one element extends the de-duplicated list exactly when the
      element is new: the append-if-absent idiom computes `Dedup`. */
  lemma DedupSnoc<T>(xs: seq<T>, x: T)
    ensures Dedup(xs + [x]) == if x in xs then Dedup(xs) else Dedup(xs) + [x]
    ensures Dedup(xs + [x]) == AddOnce(Dedup(xs), x)
  {
    assert Init(xs + [x]) == xs;
  }

  /** The de-duplicated list keeps the order of first appearance: an element
      listed earlier first appears earlier in `xs`. */
  lemma {:induction false} DedupKeepsFirstAppearance<T>(xs: seq<T>, i: nat, j: nat)
    requires i < j < |Dedup(xs)|
    ensures IndexOf(xs, Dedup(xs)[i]).Some? && IndexOf(xs, Dedup(xs)[j]).Some?
    ensures IndexOf(xs, Dedup(xs)[i]).value < IndexOf(xs, Dedup(xs)[j]).value
  {
    var d := Dedup(xs);
    var a, b := d[i], d[j];
    if Last(xs) in Init(xs) {
      DedupKeepsFirstAppearance(Init(xs), i, j);
      FirstIndexInPrefix(Init(xs), [Last(xs)], a);
      FirstIndexInPrefix(Init(xs), [Last(xs)], b);
      assert Init(xs) + [Last(xs)] == xs;
    } else {
      var d0 := Dedup(Init(xs));
      assert Init(xs) + [Last(xs)] == xs;
      FirstIndexInPrefix(Init(xs), [Last(xs)], a);
      if j < |d0| {
        DedupKeepsFirstAppearance(Init(xs), i, j);
        FirstIndexInPrefix(Init(xs), [Last(xs)], b);
      } else {
        assert b == Last(xs);
        assert a in Init(xs);
        assert IndexOf(xs, a).value < |Init(xs)|;
        assert IndexOf(xs, b).value == |Init(xs)|;
      }
    }
  }

  /** The first position of an element of `xs` is unchanged by appending `ys`. */
  lemma FirstIndexInPrefix<T>(xs: seq<T>, ys: seq<T>, x: T)
    requires x in xs
    ensures IndexOf(xs + ys, x) == IndexOf(xs, x)
  {
    var p := IndexOf(xs, x).value;
    var q := IndexOf(xs + ys, x).value;
    assert (xs + ys)[p] == x;
    assert q <= p;
    assert xs[q] == x;
  }

  /** One key of a map of lists kept by the append-if-absent idiom: if the map
      held the de-duplicated list `xs` (and the key only when `xs` is non-empty),
      it holds the de-duplicated `xs'` after `x` is added when `add` holds. */
  lemma RegisterStep<K, T>(before: map<K, seq<T>>, after: map<K, seq<T>>, k: K, xs: seq<T>, xs': seq<T>, add: bool, x: T)
    requires k in before <==> xs != []
    requires k in before ==> before[k] == Dedup(xs)
    requires k in after <==> k in before || add
    requires k in after ==> after[k] == if add then AddOnce(Lookup(before, k), x) else before[k]
    requires xs' == xs + if add then [x] else []
    ensures k in after <==> xs' != []
    ensures k in after ==> after[k] == Dedup(xs')
  {
    if add {
      DedupSnoc(xs, x);
      if k !in before {
        assert xs == [];
        assert Dedup(xs') == [x];
      }
    } else {
      assert xs' == xs;
    }
  }

  /** The elements of `xs` that are not in `s`, in order, repetitions kept. */
  function Missing<T>(xs: seq<T>, s: set<T>): (r: seq<T>)
    ensures forall k :: 0 <= k < |r| ==> r[k] in xs && r[k] !in s
    ensures forall k :: 0 <= k < |xs| && xs[k] !in s ==> xs[k] in r
  {
    if xs == [] then []
    else Missing(Init(xs), s) + if Last(xs) in s then [] else [Last(xs)]
  }

  /** `for x in xs: if x not in s: out.append(x)` */
  method AppendMissing<T>(out: seq<T>, xs: seq<T>, s: set<T>) returns (out': seq<T>)
    ensures out' == out + Missing(xs, s)
  {
    out' := out;
    for j := 0 to |xs|
      invariant out' == out + Missing(xs[..j], s)
    {
      assert Init(xs[..j + 1]) == xs[..j] && Last(xs[..j + 1]) == xs[j];
      if xs[j] !in s {
        out' := out' + [xs[j]];
      }
    }
    assert xs[..|xs|] == xs;
  }
}
