/**
 * `Program.ParseIndexSet`: a compact index expression such as `0,2,4-6` read as the
 * set of indices it names below an exclusive bound, returned in ascending order.
 * Comma-separated tokens are trimmed and empty ones dropped; a token holding `-`
 * is a range when it splits into exactly two integers, in either order; any other
 * token is a single integer; every token that is neither is ignored.
 */
module IndexSets {
  import opened Wrappers
  import opened Text

  function Min(a: int, b: int): int { if a <= b then a else b }
  function Max(a: int, b: int): int { if a <= b then b else a }

  /** The integers from `lo` to `hi` inclusive. */
  function Interval(lo: int, hi: int): set<int>
    decreases hi - lo
  {
    if hi < lo then {} else Interval(lo, hi - 1) + {hi}
  }

  lemma {:induction false} IntervalContents(lo: int, hi: int)
    ensures forall x :: x in Interval(lo, hi) <==> lo <= x <= hi
    decreases hi - lo
  {
    if lo <= hi {
      IntervalContents(lo, hi - 1);
    }
  }

  /** What one comma-separated token denotes. */
  datatype Token = Single(index: int) | Range(a: int, b: int) | Ignored

  /** The reading of one trimmed token. */
  function TokenOf(part: string): Token {
    if '-' in part then
      var range := SplitTrimmed(part, '-');
      if |range| == 2 && ParseInt(range[0]).Some? && ParseInt(range[1]).Some? then
        Range(ParseInt(range[0]).value, ParseInt(range[1]).value)
      else Ignored
    else
      match ParseInt(part)
      case Some(i) => Single(i)
      case None => Ignored
  }

  /** The indices a token adds to the set. */
  function TokenIndices(t: Token, maxExclusive: nat): set<int> {
    match t
    case Single(i) => if 0 <= i < maxExclusive then {i} else {}
    case Range(a, b) =>
      var lo, hi := Max(0, Min(a, b)), Min(maxExclusive - 1, Max(a, b));
      Interval(lo, hi)
    case Ignored => {}
  }

  /** The indices named by the first `m` tokens. */
  function IndicesUpTo(parts: seq<string>, m: nat, maxExclusive: nat): set<int>
    requires m <= |parts|
  {
    if m == 0 then {}
    else IndicesUpTo(parts, m - 1, maxExclusive) + TokenIndices(TokenOf(Trim(parts[m - 1])), maxExclusive)
  }

  /** The set `ParseIndexSet` collects before ordering it. */
  function IndexSet(input: string, maxExclusive: nat): set<int> {
    if IsWhiteSpaceOnly(input) then {}
    else
      var parts := SplitTrimmed(input, ',');
      IndicesUpTo(parts, |parts|, maxExclusive)
  }

  /** The members of `s` below `n`, in ascending order. */
  function Ascending(s: set<int>, n: nat): seq<int> {
    if n == 0 then [] else Ascending(s, n - 1) + (if n - 1 in s then [n - 1] else [])
  }

  /** `Ascending` lists exactly the members of `s` in `[0, n)`, each once, in strictly increasing order. */
  lemma {:induction false} AscendingFacts(s: set<int>, n: nat)
    ensures var r := Ascending(s, n);
            && (forall i, j :: 0 <= i < j < |r| ==> r[i] < r[j])
            && (forall x :: x in r <==> 0 <= x < n && x in s)
            && (forall k :: 0 <= k < |r| ==> 0 <= r[k] < n)
  {
    if n > 0 {
      AscendingFacts(s, n - 1);
      var prev := Ascending(s, n - 1);
      if n - 1 in s {
        var r := prev + [n - 1];
        forall i, j | 0 <= i < j < |r| ensures r[i] < r[j] {
          assert r[i] == prev[i];
          if j < |prev| {
            assert r[j] == prev[j];
          } else {
            assert prev[i] in prev;
          }
        }
      }
    }
  }

  /** The empty set orders to the empty list. */
  lemma {:induction false} AscendingEmpty(n: nat)
    ensures Ascending({}, n) == []
  {
    if n > 0 {
      AscendingEmpty(n - 1);
    }
  }

  /** A token only names indices in `[0, maxExclusive)`. */
  lemma TokenIndicesInRange(t: Token, maxExclusive: nat)
    ensures forall x :: x in TokenIndices(t, maxExclusive) ==> 0 <= x < maxExclusive
  {
    if t.Range? {
      IntervalContents(Max(0, Min(t.a, t.b)), Min(maxExclusive - 1, Max(t.a, t.b)));
    }
  }

  /** An index is collected exactly when one of the tokens names it. */
  lemma {:induction false} IndicesUpToUnion(parts: seq<string>, m: nat, maxExclusive: nat, x: int)
    requires m <= |parts|
    ensures x in IndicesUpTo(parts, m, maxExclusive)
            <==> exists k :: 0 <= k < m && x in TokenIndices(TokenOf(Trim(parts[k])), maxExclusive)
  {
    if m > 0 {
      IndicesUpToUnion(parts, m - 1, maxExclusive, x);
      if x in TokenIndices(TokenOf(Trim(parts[m - 1])), maxExclusive) {
        assert 0 <= m - 1 < m;
      }
    }
  }

  /** Every collected index is in `[0, maxExclusive)`; a blank expression names none. */
  lemma IndexSetInRange(input: string, maxExclusive: nat)
    ensures forall x :: x in IndexSet(input, maxExclusive) ==> 0 <= x < maxExclusive
    ensures IsWhiteSpaceOnly(input) ==> IndexSet(input, maxExclusive) == {}
  {
    forall x | x in IndexSet(input, maxExclusive) ensures 0 <= x < maxExclusive {
      var parts := SplitTrimmed(input, ',');
      IndicesUpToUnion(parts, |parts|, maxExclusive, x);
      var k :| 0 <= k < |parts| && x in TokenIndices(TokenOf(Trim(parts[k])), maxExclusive);
      TokenIndicesInRange(TokenOf(Trim(parts[k])), maxExclusive);
    }
  }

  /**
   * The list `ParseIndexSet` returns: the indices the expression names, sorted
   * ascending, without repetitions, all in `[0, maxExclusive)`; none for a blank
   * expression.
   */
  function IndexList(input: string, maxExclusive: nat): (r: seq<int>)
    ensures forall i, j :: 0 <= i < j < |r| ==> r[i] < r[j]
    ensures forall x :: x in r <==> x in IndexSet(input, maxExclusive)
    ensures forall k :: 0 <= k < |r| ==> 0 <= r[k] < maxExclusive
    ensures IsWhiteSpaceOnly(input) ==> r == []
  {
    AscendingFacts(IndexSet(input, maxExclusive), maxExclusive);
    IndexSetInRange(input, maxExclusive);
    if IsWhiteSpaceOnly(input) then AscendingEmpty(maxExclusive); Ascending({}, maxExclusive)
    else Ascending(IndexSet(input, maxExclusive), maxExclusive)
  }

  /**
   * A range names every index between its two ends, whichever comes first, clipped
   * to `[0, maxExclusive)`; a single index names itself when in range.
   */
  lemma TokenIndicesContents(t: Token, maxExclusive: nat, x: int)
    ensures t.Range? ==>
              (x in TokenIndices(t, maxExclusive) <==>
                 0 <= x < maxExclusive && Min(t.a, t.b) <= x <= Max(t.a, t.b))
    ensures t.Range? ==> TokenIndices(t, maxExclusive) == TokenIndices(Range(t.b, t.a), maxExclusive)
    ensures t.Single? ==> (x in TokenIndices(t, maxExclusive) <==> x == t.index && 0 <= x < maxExclusive)
    ensures t.Ignored? ==> x !in TokenIndices(t, maxExclusive)
  {
    if t.Range? {
      IntervalContents(Max(0, Min(t.a, t.b)), Min(maxExclusive - 1, Max(t.a, t.b)));
    }
  }

  /** One iteration of the loop over the tokens: adds what `part` names to `s`. */
  method AddToken(s: set<int>, part: string, maxExclusive: nat) returns (s': set<int>)
    ensures s' == s + TokenIndices(TokenOf(part), maxExclusive)
  {
    s' := s;
    if '-' in part {
      var range := SplitTrimmed(part, '-');
      if |range| == 2 && ParseInt(range[0]).Some? && ParseInt(range[1]).Some? {
        var a, b := ParseInt(range[0]).value, ParseInt(range[1]).value;
        var start := Max(0, Min(a, b));
        var end := Min(maxExclusive - 1, Max(a, b));
        var i := start;
        while i <= end
          invariant start <= i && (i <= end + 1 || i == start)
          invariant s' == s + Interval(start, i - 1)
          decreases end - i
        {
          s' := s' + {i};
          i := i + 1;
        }
      }
    } else if ParseInt(part).Some? {
      var idx := ParseInt(part).value;
      if idx >= 0 && idx < maxExclusive {
        s' := s' + {idx};
      }
    }
  }

  /** `set.OrderBy(x => x).ToList()` for a set of indices below `maxExclusive`. */
  method OrderAscending(s: set<int>, maxExclusive: nat) returns (r: seq<int>)
    ensures r == Ascending(s, maxExclusive)
  {
    r := [];
    var n := 0;
    while n < maxExclusive
      invariant 0 <= n <= maxExclusive
      invariant r == Ascending(s, n)
    {
      if n in s {
        r := r + [n];
      }
      n := n + 1;
    }
  }

  /**
   * `ParseIndexSet(input, maxExclusive)`: the indices the expression names, sorted
   * ascending, without repetitions, all in `[0, maxExclusive)`.
   */
  method ParseIndexSet(input: string, maxExclusive: nat) returns (r: seq<int>)
    ensures r == IndexList(input, maxExclusive)
  {
    var s: set<int> := {};
    if IsWhiteSpaceOnly(input) {
      AscendingEmpty(maxExclusive);
      return [];
    }
    var parts := SplitTrimmed(input, ',');
    var k := 0;
    while k < |parts|
      invariant 0 <= k <= |parts|
      invariant s == IndicesUpTo(parts, k, maxExclusive)
    {
      var part := Trim(parts[k]);
      s := AddToken(s, part, maxExclusive);
      k := k + 1;
    }
    r := OrderAscending(s, maxExclusive);
  }
}
