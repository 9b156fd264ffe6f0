/** The scheduler sorts twice with `Array.prototype.sort` and a numeric
    comparator: tasks by descending urgency and placed tasks by ascending start
    time. Both are modelled by one stable insertion sort, ascending on a real
    key (descending urgency is ascending negated urgency). */
module Sorting {

  ghost predicate KeysDefined<T>(s: seq<T>, key: T --> real) {
    forall i :: 0 <= i < |s| ==> key.requires(s[i])
  }

  ghost predicate SortedBy<T>(s: seq<T>, key: T --> real)
    requires KeysDefined(s, key)
  {
    forall i, j :: 0 <= i < j < |s| ==> key(s[i]) <= key(s[j])
  }

  /** Inserts `x` before the first element whose key is not smaller, so an
      element inserted later into the front stays ahead of equal keys. */
  function InsertBy<T>(x: T, s: seq<T>, key: T --> real): (r: seq<T>)
    requires key.requires(x) && KeysDefined(s, key)
    ensures |r| == |s| + 1
    ensures multiset(r) == multiset(s) + multiset{x}
    ensures KeysDefined(r, key)
  {
    if s == [] || key(x) <= key(s[0]) then [x] + s
    else
      assert s == [s[0]] + s[1..];
      [s[0]] + InsertBy(x, s[1..], key)
  }

  /** Insertion into a sorted sequence keeps it sorted. */
  lemma {:induction false} InsertSorted<T>(x: T, s: seq<T>, key: T --> real)
    requires key.requires(x) && KeysDefined(s, key) && SortedBy(s, key)
    ensures SortedBy(InsertBy(x, s, key), key)
  {
    if s != [] && key(x) > key(s[0]) {
      var rest := InsertBy(x, s[1..], key);
      InsertSorted(x, s[1..], key);
      assert s == [s[0]] + s[1..];
      forall j | 0 <= j < |rest| ensures key(s[0]) <= key(rest[j]) {
        assert rest[j] in multiset(rest);
        if rest[j] != x {
          assert rest[j] in multiset(s[1..]);
          var m :| 0 <= m < |s[1..]| && s[1..][m] == rest[j];
          assert s[m + 1] == rest[j];
        }
      }
    }
  }

  /** `[...s].sort(compare)` where `compare(a, b) = key(a) - key(b)`. */
  function SortBy<T>(s: seq<T>, key: T --> real): (r: seq<T>)
    requires KeysDefined(s, key)
    ensures multiset(r) == multiset(s)
    ensures KeysDefined(r, key)
    ensures SortedBy(r, key)
  {
    if s == [] then []
    else
      assert s == [s[0]] + s[1..];
      InsertSorted(s[0], SortBy(s[1..], key), key);
      InsertBy(s[0], SortBy(s[1..], key), key)
  }

  /** Insertion puts `x` at one position and leaves the rest in order. */
  lemma {:induction false} InsertSplit<T>(x: T, s: seq<T>, key: T --> real) returns (k: nat)
    requires key.requires(x) && KeysDefined(s, key)
    ensures k <= |s| && InsertBy(x, s, key) == s[..k] + [x] + s[k..]
  {
    if s == [] || key(x) <= key(s[0]) {
      k := 0;
    } else {
      var k' := InsertSplit(x, s[1..], key);
      k := k' + 1;
      assert s[..k] == [s[0]] + s[1..][..k'];
      assert s[k..] == s[1..][k'..];
    }
  }

  /** Sorting does not invent elements. */
  lemma SortedMember<T>(s: seq<T>, key: T --> real, y: T)
    requires KeysDefined(s, key) && y in SortBy(s, key)
    ensures y in s
  {
    assert y in multiset(SortBy(s, key));
  }
}
