/** The order in which the window lists tasks: Python's `sorted(tasks,
    key=lambda x: x["created_at"])`, a stable sort on the creation
    timestamp. Strings compare code point by code point, and a proper
    prefix comes first. The sort is computed on positions into the list,
    so the view refers to the stored tasks themselves. */
module TaskOrder {
  import opened TaskManager

  /** The length of the longest common prefix of `a` and `b`. */
  function Common(a: string, b: string): (n: nat)
    ensures n <= |a| && n <= |b| && a[..n] == b[..n]
    ensures n < |a| && n < |b| ==> a[n] != b[n]
    decreases |a|
  {
    if |a| == 0 || |b| == 0 || a[0] != b[0] then 0
    else
      var n := Common(a[1..], b[1..]);
      assert a[..n + 1] == [a[0]] + a[1..][..n];
      assert b[..n + 1] == [b[0]] + b[1..][..n];
      n + 1
  }

  /** Python's `a < b` on strings: at the first position where they differ
      the smaller code point wins, and a proper prefix comes first. */
  function KeyLt(a: string, b: string): (r: bool)
    ensures var n := Common(a, b);
      r <==> (n == |a| && n < |b|) || (n < |a| && n < |b| && a[n] < b[n])
    decreases |a|
  {
    if |a| == 0 then |b| > 0
    else if |b| == 0 then false
    else if a[0] != b[0] then a[0] < b[0]
    else KeyLt(a[1..], b[1..])
  }

  lemma {:induction false} KeyLtIrreflexive(a: string)
    ensures !KeyLt(a, a)
    decreases |a|
  {
    if |a| > 0 { KeyLtIrreflexive(a[1..]); }
  }

  lemma {:induction false} KeyLtAsymmetric(a: string, b: string)
    ensures KeyLt(a, b) ==> !KeyLt(b, a)
    decreases |a|
  {
    if |a| > 0 && |b| > 0 && a[0] == b[0] { KeyLtAsymmetric(a[1..], b[1..]); }
  }

  lemma {:induction false} KeyLtTotal(a: string, b: string)
    ensures a == b || KeyLt(a, b) || KeyLt(b, a)
    decreases |a|
  {
    if |a| > 0 && |b| > 0 && a[0] == b[0] {
      KeyLtTotal(a[1..], b[1..]);
      if a[1..] == b[1..] {
        assert a == [a[0]] + a[1..] && b == [b[0]] + b[1..];
      }
    }
  }

  lemma {:induction false} KeyLtTransitive(a: string, b: string, c: string)
    requires KeyLt(a, b) && KeyLt(b, c)
    ensures KeyLt(a, c)
    decreases |a|
  {
    if |a| > 0 && a[0] == b[0] && b[0] == c[0] {
      KeyLtTransitive(a[1..], b[1..], c[1..]);
    }
  }

  /** The sort keys: each task's `created_at`, by position. */
  function Keys(tasks: seq<Task>): (keys: seq<string>)
    ensures |keys| == |tasks|
    ensures forall i :: 0 <= i < |tasks| ==> keys[i] == tasks[i].createdAt
  {
    seq(|tasks|, i requires 0 <= i < |tasks| => tasks[i].createdAt)
  }

  /** Position `p` is listed before position `q` by a stable sort: its key
      is smaller, or the keys are equal and `p` comes first in the list. */
  predicate Before(keys: seq<string>, p: nat, q: nat)
    requires p < |keys| && q < |keys|
  {
    KeyLt(keys[p], keys[q]) || (keys[p] == keys[q] && p < q)
  }

  lemma BeforeIrreflexive(keys: seq<string>, p: nat)
    requires p < |keys|
    ensures !Before(keys, p, p)
  {
    KeyLtIrreflexive(keys[p]);
  }

  lemma BeforeTotal(keys: seq<string>, p: nat, q: nat)
    requires p < |keys| && q < |keys| && p != q
    ensures Before(keys, p, q) != Before(keys, q, p)
  {
    KeyLtTotal(keys[p], keys[q]);
    KeyLtAsymmetric(keys[p], keys[q]);
    KeyLtIrreflexive(keys[p]);
  }

  lemma BeforeTransitive(keys: seq<string>, p: nat, q: nat, r: nat)
    requires p < |keys| && q < |keys| && r < |keys|
    requires Before(keys, p, q) && Before(keys, q, r)
    ensures Before(keys, p, r)
  {
    if KeyLt(keys[p], keys[q]) && KeyLt(keys[q], keys[r]) {
      KeyLtTransitive(keys[p], keys[q], keys[r]);
    }
  }

  /** `s` lists positions of `keys` in stable-sorted order. Each position
      appears at most once, since `Before` is irreflexive. */
  predicate Ordered(keys: seq<string>, s: seq<nat>) {
    && (forall i :: 0 <= i < |s| ==> s[i] < |keys|)
    && (forall i, j :: 0 <= i < j < |s| ==> Before(keys, s[i], s[j]))
  }

  /** Insertion of one more position into a sorted listing. */
  function Insert(keys: seq<string>, p: nat, s: seq<nat>): (r: seq<nat>)
    requires p < |keys| && Ordered(keys, s) && p !in s
    ensures Ordered(keys, r)
    ensures |r| == |s| + 1
    ensures forall x :: x in r <==> x == p || x in s
    decreases |s|
  {
    if |s| == 0 then [p]
    else if Before(keys, p, s[0]) then
      assert Ordered(keys, [p] + s) by {
        var r := [p] + s;
        forall i, j | 0 <= i < j < |r| ensures Before(keys, r[i], r[j]) {
          if i == 0 && j > 1 { BeforeTransitive(keys, p, s[0], s[j - 1]); }
        }
      }
      [p] + s
    else
      BeforeTotal(keys, p, s[0]);
      var rest := Insert(keys, p, s[1..]);
      assert Ordered(keys, [s[0]] + rest) by {
        forall j | 0 <= j < |rest| ensures Before(keys, s[0], rest[j]) {
          assert rest[j] in rest;
          if rest[j] != p {
            var k :| 0 <= k < |s[1..]| && s[1..][k] == rest[j];
            assert s[k + 1] == rest[j];
          }
        }
      }
      [s[0]] + rest
  }

  /** Insertion sort of distinct positions. */
  function Sort(keys: seq<string>, ps: seq<nat>): (r: seq<nat>)
    requires forall i :: 0 <= i < |ps| ==> ps[i] < |keys|
    requires forall i, j :: 0 <= i < j < |ps| ==> ps[i] != ps[j]
    ensures Ordered(keys, r)
    ensures |r| == |ps|
    ensures forall x :: x in r <==> x in ps
    decreases |ps|
  {
    if |ps| == 0 then []
    else
      var n := |ps| - 1;
      var rest := Sort(keys, ps[..n]);
      assert ps[n] !in ps[..n];
      assert forall x :: x in ps <==> x == ps[n] || x in ps[..n] by {
        assert ps == ps[..n] + [ps[n]];
      }
      Insert(keys, ps[n], rest)
  }

  function Range(n: nat): (r: seq<nat>)
    ensures |r| == n && forall i :: 0 <= i < n ==> r[i] == i
  {
    seq(n, i requires 0 <= i < n => i)
  }

  /** The listing order `refresh` builds: every position of `tasks` exactly
      once, stably sorted on `created_at`. */
  function Refresh(tasks: seq<Task>): (order: seq<nat>)
    ensures Ordered(Keys(tasks), order)
    ensures |order| == |tasks|
    ensures forall p: nat :: p in order <==> p < |tasks|
  {
    var r := Sort(Keys(tasks), Range(|tasks|));
    assert forall p: nat :: p in Range(|tasks|) <==> p < |tasks| by {
      forall p: nat | p < |tasks| ensures p in Range(|tasks|) {
        assert Range(|tasks|)[p] == p;
      }
    }
    r
  }

  /** A stable sort has exactly one possible result: two sorted listings of
      the same positions, of the same length, are equal. So `Refresh` is Python's `sorted`. */
  lemma {:induction false} OrderedUnique(keys: seq<string>, s: seq<nat>, t: seq<nat>)
    requires Ordered(keys, s) && Ordered(keys, t)
    requires |s| == |t| && forall x :: x in s <==> x in t
    ensures s == t
    decreases |s|
  {
    if |s| > 0 {
      assert s[0] in t;
      assert t[0] in s;
      if s[0] != t[0] {
        var i :| 0 <= i < |s| && s[i] == t[0];
        var j :| 0 <= j < |t| && t[j] == s[0];
        BeforeTotal(keys, s[0], t[0]);
        assert false;
      }
      forall x ensures x in s[1..] <==> x in t[1..] {
        OrderedTail(keys, s, x);
        OrderedTail(keys, t, x);
      }
      OrderedUnique(keys, s[1..], t[1..]);
    }
  }

  /** A sorted listing's tail holds every element but the head. */
  lemma OrderedTail(keys: seq<string>, s: seq<nat>, x: nat)
    requires Ordered(keys, s) && |s| > 0
    ensures x in s[1..] <==> x in s && x != s[0]
  {
    if x in s[1..] {
      var k :| 0 <= k < |s[1..]| && s[1..][k] == x;
      assert Before(keys, s[0], s[k + 1]);
      BeforeIrreflexive(keys, s[0]);
    }
    if x in s && x != s[0] {
      var k :| 0 <= k < |s| && s[k] == x;
      assert s[1..][k - 1] == x;
    }
  }

  /** The listing depends on nothing but the creation timestamps, so
      marking or renaming a task leaves every row where it was. */
  lemma {:induction false} RefreshFollowsKeys(a: seq<Task>, b: seq<Task>)
    requires |a| == |b|
    requires forall i :: 0 <= i < |a| ==> a[i].createdAt == b[i].createdAt
    ensures Refresh(a) == Refresh(b)
  {
    assert Keys(a) == Keys(b);
  }
}
