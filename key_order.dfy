/**
 * The order IndexedDB puts string keys in: character by character, a proper
 * prefix first. Cursors visit keys in this order (ascending, or descending for
 * a "prev" cursor) and getAllKeys lists them in it.
 */
module KeyOrder {
  import opened Optional

  /** `a` sorts strictly before `b`. */
  predicate Below(a: string, b: string)
    decreases |a|
  {
    if |a| == 0 then |b| > 0
    else if |b| == 0 then false
    else if a[0] != b[0] then a[0] < b[0]
    else Below(a[1..], b[1..])
  }

  /** `a` comes strictly before `b` in a cursor running forwards, or backwards when `reverse`. */
  predicate Before(a: string, b: string, reverse: bool)
  {
    if reverse then Below(b, a) else Below(a, b)
  }

  lemma {:induction false} BelowIrreflexive(a: string)
    ensures !Below(a, a)
  {
    if |a| > 0 {
      BelowIrreflexive(a[1..]);
    }
  }

  lemma {:induction false} BelowTransitive(a: string, b: string, c: string)
    requires Below(a, b) && Below(b, c)
    ensures Below(a, c)
  {
    if |a| > 0 && |b| > 0 && |c| > 0 && a[0] == b[0] && b[0] == c[0] {
      BelowTransitive(a[1..], b[1..], c[1..]);
    }
  }

  lemma {:induction false} BelowTotal(a: string, b: string)
    requires a != b
    ensures Below(a, b) || Below(b, a)
  {
    if |a| > 0 && |b| > 0 && a[0] == b[0] {
      assert a == [a[0]] + a[1..] && b == [b[0]] + b[1..];
      BelowTotal(a[1..], b[1..]);
    }
  }

  lemma BeforeIrreflexive(a: string, reverse: bool)
    ensures !Before(a, a, reverse)
  {
    BelowIrreflexive(a);
  }

  lemma BeforeTransitive(a: string, b: string, c: string, reverse: bool)
    requires Before(a, b, reverse) && Before(b, c, reverse)
    ensures Before(a, c, reverse)
  {
    if reverse { BelowTransitive(c, b, a); } else { BelowTransitive(a, b, c); }
  }

  lemma BeforeTotal(a: string, b: string, reverse: bool)
    requires a != b
    ensures Before(a, b, reverse) || Before(b, a, reverse)
  {
    BelowTotal(a, b);
  }

  /** Every element comes strictly before every later one: sorted, hence without repeats. */
  ghost predicate Ordered(s: seq<string>, reverse: bool)
  {
    forall i, j :: 0 <= i < j < |s| ==> Before(s[i], s[j], reverse)
  }

  /** An ordered sequence has no repeats. */
  lemma OrderedDistinct(s: seq<string>, reverse: bool)
    requires Ordered(s, reverse)
    ensures forall i, j :: 0 <= i < j < |s| ==> s[i] != s[j]
  {
    forall i, j | 0 <= i < j < |s| ensures s[i] != s[j] {
      BeforeIrreflexive(s[i], reverse);
    }
  }

  /** An ordered sequence holding exactly the keys of a set lists each of them once. */
  lemma {:induction false} OrderedCount(s: seq<string>, keys: set<string>, reverse: bool)
    requires Ordered(s, reverse)
    requires forall k :: k in s <==> k in keys
    ensures |s| == |keys|
  {
    if s == [] {
      assert keys == {};
    } else {
      var init, last := s[..|s| - 1], s[|s| - 1];
      OrderedDistinct(s, reverse);
      assert s == init + [last];
      OrderedCount(init, keys - {last}, reverse);
    }
  }

  /** The first key of a non-empty set in cursor direction. */
  method Least(keys: set<string>, reverse: bool) returns (m: string)
    requires keys != {}
    ensures m in keys
    ensures forall k :: k in keys && k != m ==> Before(m, k, reverse)
  {
    m :| m in keys;
    var rest := keys - {m};
    while rest != {}
      invariant m in keys && m !in rest && rest <= keys
      invariant forall k :: k in keys - rest && k != m ==> Before(m, k, reverse)
      decreases rest
    {
      var k :| k in rest;
      if Before(k, m, reverse) {
        forall j | j in keys - (rest - {k}) && j != k
          ensures Before(k, j, reverse)
        {
          if j != m { BeforeTransitive(k, m, j, reverse); }
        }
        m := k;
      } else {
        BeforeTotal(k, m, reverse);
      }
      rest := rest - {k};
    }
  }

  /**
   * Where a cursor goes next (IDBCursor.continue): the first key of the
   * current key set strictly after the cursor's position, or nothing when the
   * scan is exhausted; `None` as position means the cursor was just opened.
   */
  method NextKey(keys: set<string>, at: Option<string>, reverse: bool) returns (next: Option<string>)
    ensures next.None? <==> forall k :: k in keys ==> at.Some? && !Before(at.value, k, reverse)
    ensures next.Some? ==> next.value in keys && (at.None? || Before(at.value, next.value, reverse))
    ensures next.Some? ==> forall k :: k in keys && k != next.value && (at.None? || Before(at.value, k, reverse))
                                  ==> Before(next.value, k, reverse)
  {
    var after := set k | k in keys && (at.None? || Before(at.value, k, reverse));
    if after == {} {
      forall k | k in keys
        ensures at.Some? && !Before(at.value, k, reverse)
      {
        assert k !in after;
      }
      next := None;
    } else {
      var m := Least(after, reverse);
      next := Some(m);
    }
  }

  /** All keys of a set, in cursor order (IDBObjectStore.getAllKeys when not `reverse`). */
  method SortedKeys(keys: set<string>, reverse: bool) returns (s: seq<string>)
    ensures Ordered(s, reverse)
    ensures forall k :: k in s <==> k in keys
    ensures |s| == |keys|
  {
    s := [];
    var rest := keys;
    while rest != {}
      invariant rest <= keys
      invariant Ordered(s, reverse)
      invariant forall k :: k in keys <==> k in s || k in rest
      invariant forall i :: 0 <= i < |s| ==> s[i] !in rest
      invariant forall i, k :: 0 <= i < |s| && k in rest ==> Before(s[i], k, reverse)
      invariant |s| + |rest| == |keys|
      decreases rest
    {
      var m := Least(rest, reverse);
      s := s + [m];
      rest := rest - {m};
    }
  }
}
