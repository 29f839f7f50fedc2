/**
 * The two `order_by` clauses the catalog's queries use on items:
 * `order_by(Item.name)` and `order_by(Item.updated.desc())`, the latter
 * followed by `limit(n)`.
 */
module Ordering {
  import opened Models
  import opened Strings

  datatype Order = ByName | ByUpdatedDesc

  /** `a` may be listed before `b` under the order. */
  predicate Before(o: Order, a: Item, b: Item)
  {
    match o
    case ByName => StrLe(a.name, b.name)
    case ByUpdatedDesc => a.updated >= b.updated
  }

  predicate Sorted(s: seq<Item>, o: Order)
  {
    forall i, j :: 0 <= i < j < |s| ==> Before(o, s[i], s[j])
  }

  lemma BeforeTotal(o: Order, a: Item, b: Item)
    ensures Before(o, a, b) || Before(o, b, a)
  {
    if o.ByName? {
      StrLeTotal(a.name, b.name);
    }
  }

  lemma BeforeTransitive(o: Order, a: Item, b: Item, c: Item)
    requires Before(o, a, b) && Before(o, b, c)
    ensures Before(o, a, c)
  {
    if o.ByName? {
      StrLeTransitive(a.name, b.name, c.name);
    }
  }

  /** Places `x` in a sorted sequence, ahead of the rows it ties with. */
  function Insert(x: Item, s: seq<Item>, o: Order): (r: seq<Item>)
    requires Sorted(s, o)
    ensures Sorted(r, o)
    ensures multiset(r) == multiset(s) + multiset{x}
  {
    if s == [] then [x]
    else if Before(o, x, s[0]) then
      forall j | 0 < j < |s| ensures Before(o, x, s[j]) {
        BeforeTransitive(o, x, s[0], s[j]);
      }
      [x] + s
    else
      var rest := Insert(x, s[1..], o);
      BeforeTotal(o, x, s[0]);
      assert s == [s[0]] + s[1..];
      HeadStaysFirst(o, s[0], s[1..], x, rest);
      [s[0]] + rest
  }

  /** A row that may precede `x` and every row of `t` may precede every row of a permutation of `t + [x]`. */
  lemma HeadStaysFirst(o: Order, h: Item, t: seq<Item>, x: Item, rest: seq<Item>)
    requires Before(o, h, x) && forall j :: 0 <= j < |t| ==> Before(o, h, t[j])
    requires multiset(rest) == multiset(t) + multiset{x}
    ensures forall j :: 0 <= j < |rest| ==> Before(o, h, rest[j])
  {
    forall j | 0 <= j < |rest| ensures Before(o, h, rest[j]) {
      assert rest[j] in multiset(rest);
      if rest[j] != x {
        assert rest[j] in multiset(t);
        var k :| 0 <= k < |t| && t[k] == rest[j];
      }
    }
  }

  /** The rows of `s` listed in the order `o`: a permutation of `s` that is sorted. */
  function SortItems(s: seq<Item>, o: Order): (r: seq<Item>)
    ensures Sorted(r, o)
    ensures multiset(r) == multiset(s)
    ensures |r| == |s|
  {
    if s == [] then []
    else
      assert s == [s[0]] + s[1..];
      Insert(s[0], SortItems(s[1..], o), o)
  }

  /**
   * `order_by(Item.updated.desc()).limit(n)`: the `n` rows updated most
   * recently, newest first. Every row left out was updated no later than
   * every row kept.
   */
  function Latest(s: seq<Item>, n: nat): (r: seq<Item>)
    ensures |r| == if n < |s| then n else |s|
    ensures Sorted(r, ByUpdatedDesc)
    ensures multiset(r) <= multiset(s)
    ensures forall x, y :: x in s && x !in r && y in r ==> x.updated <= y.updated
  {
    var all := SortItems(s, ByUpdatedDesc);
    var m := if n < |s| then n else |s|;
    assert all == all[..m] + all[m..];
    PrefixIsNewest(s, all, m);
    all[..m]
  }

  /** A list without repeats holds each row at most once. */
  lemma {:induction false} AtMostOnce(s: seq<Item>, x: Item)
    requires forall i, j :: 0 <= i < j < |s| ==> s[i] != s[j]
    ensures multiset(s)[x] <= 1
  {
    if s != [] {
      assert s == [s[0]] + s[1..];
      AtMostOnce(s[1..], x);
      assert s[0] !in s[1..] by {
        forall k | 0 <= k < |s[1..]| ensures s[1..][k] != s[0] {
          assert s[1..][k] == s[k + 1];
        }
      }
    }
  }

  /** Rows drawn from a list without repeats (a sub-multiset of it) have no repeats either. */
  lemma NoRepeatsDrawn(s: seq<Item>, r: seq<Item>)
    requires forall i, j :: 0 <= i < j < |s| ==> s[i] != s[j]
    requires multiset(r) <= multiset(s)
    ensures forall i, j :: 0 <= i < j < |r| ==> r[i] != r[j]
  {
    forall i, j | 0 <= i < j < |r| ensures r[i] != r[j] {
      AtMostOnce(s, r[j]);
      assert r == r[..j] + [r[j]] + r[j + 1..];
      assert r[..j][i] == r[i];
      assert multiset(r)[r[j]] == multiset(r[..j])[r[j]] + 1 + multiset(r[j + 1..])[r[j]];
    }
  }

  /** A reordering of rows with distinct ids holds the same rows, each once. */
  lemma PermutationKeepsOnce(s: seq<Item>, r: seq<Item>)
    requires forall i, j :: 0 <= i < j < |s| ==> s[i].id < s[j].id
    requires multiset(r) == multiset(s)
    ensures forall i, j :: 0 <= i < j < |r| ==> r[i] != r[j]
    ensures forall x :: x in r <==> x in s
  {
    NoRepeatsDrawn(s, r);
    forall x ensures x in r <==> x in s {
      assert x in r <==> x in multiset(r);
      assert x in s <==> x in multiset(s);
    }
  }

  /** Cutting a list sorted newest first keeps rows no older than any row of the input it leaves out. */
  lemma PrefixIsNewest(s: seq<Item>, all: seq<Item>, m: nat)
    requires m <= |all| && Sorted(all, ByUpdatedDesc) && multiset(all) == multiset(s)
    ensures forall x, y :: x in s && x !in all[..m] && y in all[..m] ==> x.updated <= y.updated
  {
    forall x, y | x in s && x !in all[..m] && y in all[..m] ensures x.updated <= y.updated {
      assert x in multiset(all);
      var j :| 0 <= j < |all| && all[j] == x;
      var i :| 0 <= i < m && all[..m][i] == y;
      assert Before(ByUpdatedDesc, all[i], all[j]);
    }
  }
}
