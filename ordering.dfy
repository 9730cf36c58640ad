/** Ordering: `urls.sort((a, b) => a.loc.localeCompare(b.loc))`. The engine's sort is stable,
    so records with equal `loc` keep the order they were discovered in; the comparison is
    modelled as plain lexicographic order on characters (`Text.LessEq`). The value the sorted
    list ends up with is specified as a stable insertion sort. */
module Ordering {
  import opened Text
  import opened Entries

  /** Puts `x` before the first record whose `loc` is not below `x.loc`. */
  function Insert(x: UrlEntry, s: seq<UrlEntry>): seq<UrlEntry> {
    if s == [] then [x]
    else if LessEq(x.loc, s[0].loc) then [x] + s
    else [s[0]] + Insert(x, s[1..])
  }

  function SortByLoc(s: seq<UrlEntry>): seq<UrlEntry> {
    if s == [] then [] else Insert(s[0], SortByLoc(s[1..]))
  }

  predicate SortedByLoc(s: seq<UrlEntry>) {
    forall i, j :: 0 <= i < j < |s| ==> LessEq(s[i].loc, s[j].loc)
  }

  /** `s` and `t` hold the same records, position by position, except where `s` holds `a` and
      `t` holds `b`. */
  predicate AgreeExcept(s: seq<UrlEntry>, t: seq<UrlEntry>, a: UrlEntry, b: UrlEntry) {
    |s| == |t| && forall i :: 0 <= i < |s| ==> s[i] == t[i] || (s[i] == a && t[i] == b)
  }

  /** The records with one given `loc`, in the order they appear. */
  function WithLoc(s: seq<UrlEntry>, loc: string): seq<UrlEntry> {
    if s == [] then [] else (if s[0].loc == loc then [s[0]] else []) + WithLoc(s[1..], loc)
  }

  lemma {:induction false} InsertPermutes(x: UrlEntry, s: seq<UrlEntry>)
    ensures multiset(Insert(x, s)) == multiset(s) + multiset{x}
  {
    if s != [] && !LessEq(x.loc, s[0].loc) {
      InsertPermutes(x, s[1..]);
      assert s == [s[0]] + s[1..];
    }
  }

  /** A lower bound of `x` and of every record of `s` bounds every record of `Insert(x, s)`. */
  lemma InsertAbove(x: UrlEntry, s: seq<UrlEntry>, lo: string)
    requires LessEq(lo, x.loc)
    requires forall k :: 0 <= k < |s| ==> LessEq(lo, s[k].loc)
    ensures forall k :: 0 <= k < |Insert(x, s)| ==> LessEq(lo, Insert(x, s)[k].loc)
  {
    InsertPermutes(x, s);
    var r := Insert(x, s);
    forall k | 0 <= k < |r| ensures LessEq(lo, r[k].loc) {
      assert r[k] in multiset(r);
      if r[k] != x {
        assert r[k] in multiset(s);
        var m :| 0 <= m < |s| && s[m] == r[k];
      }
    }
  }

  lemma {:induction false} InsertSorted(x: UrlEntry, s: seq<UrlEntry>)
    requires SortedByLoc(s)
    ensures SortedByLoc(Insert(x, s))
  {
    if s == [] {
    } else if LessEq(x.loc, s[0].loc) {
      var r := [x] + s;
      forall i, j | 0 <= i < j < |r| ensures LessEq(r[i].loc, r[j].loc) {
        if i == 0 && j > 1 {
          LessEqTransitive(x.loc, s[0].loc, s[j - 1].loc);
        }
      }
    } else {
      var rest := s[1..];
      assert SortedByLoc(rest) by {
        forall i, j | 0 <= i < j < |rest| ensures LessEq(rest[i].loc, rest[j].loc) {
          assert rest[i] == s[i + 1] && rest[j] == s[j + 1];
        }
      }
      InsertSorted(x, rest);
      LessEqTotal(x.loc, s[0].loc);
      forall k | 0 <= k < |rest| ensures LessEq(s[0].loc, rest[k].loc) {
        assert rest[k] == s[k + 1];
      }
      InsertAbove(x, rest, s[0].loc);
      var tail := Insert(x, rest);
      var r := [s[0]] + tail;
      assert Insert(x, s) == r;
      forall i, j | 0 <= i < j < |r| ensures LessEq(r[i].loc, r[j].loc) {
        if i == 0 {
          assert r[j] == tail[j - 1];
        } else {
          assert r[i] == tail[i - 1] && r[j] == tail[j - 1];
        }
      }
    }
  }

  /** The sorted list holds the same records, as many times each. */
  lemma {:induction false} SortByLocPermutes(s: seq<UrlEntry>)
    ensures multiset(SortByLoc(s)) == multiset(s)
  {
    if s != [] {
      SortByLocPermutes(s[1..]);
      InsertPermutes(s[0], SortByLoc(s[1..]));
      assert s == [s[0]] + s[1..];
    }
  }

  /** The sorted list is ascending by `loc`. */
  lemma {:induction false} SortByLocSorted(s: seq<UrlEntry>)
    ensures SortedByLoc(SortByLoc(s))
  {
    if s != [] {
      SortByLocSorted(s[1..]);
      InsertSorted(s[0], SortByLoc(s[1..]));
    }
  }

  lemma {:induction false} InsertWithLoc(x: UrlEntry, s: seq<UrlEntry>, loc: string)
    ensures WithLoc(Insert(x, s), loc) == (if x.loc == loc then [x] else []) + WithLoc(s, loc)
  {
    if s == [] {
      assert Insert(x, s) == [x];
      assert [x][1..] == [];
    } else if LessEq(x.loc, s[0].loc) {
      assert ([x] + s)[1..] == s;
    } else {
      InsertWithLoc(x, s[1..], loc);
      assert s[0].loc != x.loc by { LessEqReflexive(x.loc); }
      assert ([s[0]] + Insert(x, s[1..]))[1..] == Insert(x, s[1..]);
    }
  }

  /** The sort is stable: records that share a `loc` (two files that map to one URL) come out
      in the order they went in. */
  lemma {:induction false} SortByLocStable(s: seq<UrlEntry>, loc: string)
    ensures WithLoc(SortByLoc(s), loc) == WithLoc(s, loc)
  {
    if s != [] {
      SortByLocStable(s[1..], loc);
      InsertWithLoc(s[0], SortByLoc(s[1..]), loc);
    }
  }

  /** The comparison reads only `loc`: inserting two records with one `loc` into two lists that
      differ only in records `a` and `b` of one `loc` puts them at the same position. */
  lemma {:induction false} InsertAgree(x: UrlEntry, y: UrlEntry, s: seq<UrlEntry>, t: seq<UrlEntry>,
                                       a: UrlEntry, b: UrlEntry)
    requires a.loc == b.loc && (x == y || (x == a && y == b))
    requires AgreeExcept(s, t, a, b)
    ensures AgreeExcept(Insert(x, s), Insert(y, t), a, b)
  {
    if s != [] {
      assert s[0].loc == t[0].loc;
      if !LessEq(x.loc, s[0].loc) {
        InsertAgree(x, y, s[1..], t[1..], a, b);
        var r, q := Insert(x, s[1..]), Insert(y, t[1..]);
        assert Insert(x, s) == [s[0]] + r && Insert(y, t) == [t[0]] + q;
        forall i | 0 < i < |r| + 1
          ensures ([s[0]] + r)[i] == ([t[0]] + q)[i] || (([s[0]] + r)[i] == a && ([t[0]] + q)[i] == b)
        {
          assert ([s[0]] + r)[i] == r[i - 1] && ([t[0]] + q)[i] == q[i - 1];
        }
      } else {
        var r, q := [x] + s, [y] + t;
        forall i | 0 < i < |r| ensures r[i] == q[i] || (r[i] == a && q[i] == b) {
          assert r[i] == s[i - 1] && q[i] == t[i - 1];
        }
      }
    }
  }

  /** Sorting moves records by `loc` alone: two lists that differ only in records `a` and `b`
      of one `loc` are sorted into lists that differ in the same way, position by position. */
  lemma {:induction false} SortByLocAgree(s: seq<UrlEntry>, t: seq<UrlEntry>, a: UrlEntry, b: UrlEntry)
    requires a.loc == b.loc && AgreeExcept(s, t, a, b)
    ensures AgreeExcept(SortByLoc(s), SortByLoc(t), a, b)
  {
    if s != [] {
      assert AgreeExcept(s[1..], t[1..], a, b) by {
        forall i | 0 <= i < |s| - 1 ensures s[1..][i] == t[1..][i] || (s[1..][i] == a && t[1..][i] == b) {
          assert s[1..][i] == s[i + 1] && t[1..][i] == t[i + 1];
        }
      }
      SortByLocAgree(s[1..], t[1..], a, b);
      InsertAgree(s[0], t[0], SortByLoc(s[1..]), SortByLoc(t[1..]), a, b);
    }
  }
}
