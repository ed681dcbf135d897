/** Small shared vocabulary: optional values, Python truthiness, and the
    sequence queries (first match, filter, count) that every table uses. */
module Common {

  datatype Option<+T> = None | Some(value: T)

  /** Python truthiness of an optional string: `None` and `""` are falsy. */
  predicate Truthy(s: Option<string>) {
    s.Some? && s.value != ""
  }

  /** Python truthiness of an optional list: `None` and `[]` are falsy. */
  predicate NonEmpty<T>(s: Option<seq<T>>) {
    s.Some? && |s.value| > 0
  }

  /** `data.get(key, default)` where `None` stands for a missing key. */
  function GetOr<T>(o: Option<T>, default: T): T {
    if o.Some? then o.value else default
  }

  /** Index of the first element that satisfies `p`, if any. */
  function IndexWhere<T>(s: seq<T>, p: T -> bool): (r: Option<nat>)
    ensures r.None? <==> forall i :: 0 <= i < |s| ==> !p(s[i])
    ensures r.Some? ==> r.value < |s| && p(s[r.value])
    ensures r.Some? ==> forall i :: 0 <= i < r.value ==> !p(s[i])
  {
    if |s| == 0 then None
    else if p(s[0]) then Some(0)
    else
      match IndexWhere(s[1..], p)
      case None => None
      case Some(k) => Some(k + 1)
  }

  /** The elements of `s` that satisfy `p`, in their original order. */
  function Filter<T>(s: seq<T>, p: T -> bool): (r: seq<T>)
    ensures |r| <= |s|
    ensures forall x :: x in r ==> x in s && p(x)
    ensures forall x :: x in s && p(x) ==> x in r
  {
    if |s| == 0 then []
    else if p(s[0]) then [s[0]] + Filter(s[1..], p)
    else Filter(s[1..], p)
  }

  /** Filtering distributes over appending one element at the end. */
  lemma {:induction false} FilterSnoc<T>(s: seq<T>, x: T, p: T -> bool)
    ensures Filter(s + [x], p) == Filter(s, p) + (if p(x) then [x] else [])
  {
    if |s| == 0 {
      assert s + [x] == [x];
      assert Filter([x][1..], p) == [];
    } else {
      assert (s + [x])[1..] == s[1..] + [x];
      FilterSnoc(s[1..], x, p);
    }
  }

  /** Number of elements of `s` that satisfy `p` (SQL `COUNT ... WHERE`). */
  function Count<T>(s: seq<T>, p: T -> bool): (n: nat)
    ensures n <= |s|
    ensures n == 0 <==> forall i :: 0 <= i < |s| ==> !p(s[i])
  {
    if |s| == 0 then 0
    else (if p(s[0]) then 1 else 0) + Count(s[1..], p)
  }

  /** Counts of three mutually exclusive conditions add up to at most the total. */
  lemma {:induction false} CountExclusive3<T>(s: seq<T>, p: T -> bool, q: T -> bool, r: T -> bool)
    requires forall x :: !(p(x) && q(x)) && !(p(x) && r(x)) && !(q(x) && r(x))
    ensures Count(s, p) + Count(s, q) + Count(s, r) <= |s|
  {
    if |s| > 0 {
      CountExclusive3(s[1..], p, q, r);
    }
  }

  /** `Count` is the length of `Filter`. */
  lemma {:induction false} CountIsFilterLength<T>(s: seq<T>, p: T -> bool)
    ensures Count(s, p) == |Filter(s, p)|
  {
    if |s| > 0 {
      CountIsFilterLength(s[1..], p);
    }
  }

  /** An element that alone satisfies `p` is counted once. */
  lemma {:induction false} CountOnlyOne<T>(s: seq<T>, k: nat, p: T -> bool)
    requires k < |s| && p(s[k])
    requires forall j :: 0 <= j < |s| && j != k ==> !p(s[j])
    ensures Count(s, p) == 1
  {
    if k == 0 {
      assert forall i :: 0 <= i < |s[1..]| ==> !p(s[1..][i]) by {
        forall i | 0 <= i < |s[1..]| ensures !p(s[1..][i]) {
          assert s[1..][i] == s[i + 1];
        }
      }
    } else {
      forall j | 0 <= j < |s[1..]| && j != k - 1 ensures !p(s[1..][j]) {
        assert s[1..][j] == s[j + 1];
      }
      CountOnlyOne(s[1..], k - 1, p);
    }
  }

  /** Counting distributes over appending one element at the end. */
  lemma {:induction false} CountSnoc<T>(s: seq<T>, x: T, p: T -> bool)
    ensures Count(s + [x], p) == Count(s, p) + (if p(x) then 1 else 0)
  {
    if |s| == 0 {
      assert s + [x] == [x];
      assert [x][1..] == [];
    } else {
      assert (s + [x])[1..] == s[1..] + [x];
      CountSnoc(s[1..], x, p);
    }
  }

  /** A relation that holds between every earlier and later element of `s`
      still holds in `Filter(s, p)`, which keeps the order. */
  lemma {:induction false} FilterKeepsOrderedPairs<T>(s: seq<T>, p: T -> bool, R: (T, T) -> bool)
    requires forall i, j :: 0 <= i < j < |s| ==> R(s[i], s[j])
    ensures forall i, j :: 0 <= i < j < |Filter(s, p)| ==> R(Filter(s, p)[i], Filter(s, p)[j])
  {
    if |s| > 0 {
      var tail := s[1..];
      assert forall i, j :: 0 <= i < j < |tail| ==> tail[i] == s[i + 1] && tail[j] == s[j + 1];
      assert forall i, j :: 0 <= i < j < |tail| ==> R(tail[i], tail[j]);
      FilterKeepsOrderedPairs(tail, p, R);
      var ft := Filter(tail, p);
      if p(s[0]) {
        var f := [s[0]] + ft;
        forall j | 0 < j < |f|
          ensures R(f[0], f[j])
        {
          assert f[j] == ft[j - 1] && ft[j - 1] in ft;
          var m :| 0 <= m < |tail| && tail[m] == ft[j - 1];
          assert s[m + 1] == f[j];
        }
        assert forall i, j :: 0 < i < j < |f| ==> f[i] == ft[i - 1] && f[j] == ft[j - 1];
        assert Filter(s, p) == f;
      } else {
        assert Filter(s, p) == ft;
      }
    }
  }
}
