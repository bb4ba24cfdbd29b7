/**
 The order of keys in canonical JSON (packages/runner/src/execution-plans/execution-plan-json.ts),
 as it shows in the members of a canonical value.
 */
module CanonicalOrder {
  import opened JsonText
  import opened CanonicalJson

  /** The key is how JavaScript writes an array index: it is enumerated by value, before all other keys. */
  predicate IsIndexKey(key: Text, n: nat) {
    n < 0xFFFF_FFFF && key == WriteNat(n)
  }

  /** The first key is a proper start of the second one, or has the smaller unit where they first differ. */
  ghost predicate ComesFirst(a: Text, b: Text) {
    || (|a| < |b| && b[..|a|] == a)
    || exists i: nat :: i < |a| && i < |b| && a[..i] == b[..i] && a[i] < b[i]
  }

  ghost predicate KeysInOrder(a: Text, b: Text) {
    && (forall n: nat :: IsIndexKey(b, n) ==> exists m: nat :: m < n && IsIndexKey(a, m))
    && ((forall n: nat :: !IsIndexKey(a, n)) && (forall n: nat :: !IsIndexKey(b, n)) ==> ComesFirst(a, b))
  }

  /** In every object of the value, at any depth, the members stand in that order. */
  ghost predicate InOrder(v: Json)
    decreases v
  {
    match v
    case Arr(items) => forall x | x in items :: InOrder(x)
    case Obj(members) =>
      && (forall i, j :: 0 <= i < j < |members| ==> KeysInOrder(members[i].key, members[j].key))
      && (forall m | m in members :: InOrder(m.value))
    case _ => true
  }

  lemma IndexKeys(key: Text, n: nat)
    ensures IsIndexKey(key, n) <==> IsArrayIndex(key) && NatValue(key) == n
  {
    if IsIndexKey(key, n) {
      WrittenNatValue(n);
    } else if IsArrayIndex(key) {
      DecimalIsWritten(key);
    }
  }

  lemma {:induction false} LexComesFirst(a: Text, b: Text)
    ensures LexBefore(a, b) <==> ComesFirst(a, b)
    decreases |a|
  {
    if a == [] {
      assert b != [] ==> b[..0] == [];
    } else if b != [] {
      LexComesFirst(a[1..], b[1..]);
      if a[0] == b[0] {
        RestComesFirst(a, b);
      } else if a[0] < b[0] {
        assert a[..0] == b[..0];
      } else if ComesFirst(a, b) {
        NoneComesFirst(a, b);
      }
    }
  }

  lemma NoneComesFirst(a: Text, b: Text)
    requires a != [] && b != [] && a[0] > b[0]
    ensures !ComesFirst(a, b)
  {
    if |a| < |b| {
      assert b[..|a|][0] == b[0];
    }
    forall i: nat | i < |a| && i < |b| ensures !(a[..i] == b[..i] && a[i] < b[i]) {
      if i > 0 {
        assert a[..i][0] == a[0] && b[..i][0] == b[0];
      }
    }
  }

  lemma RestComesFirst(a: Text, b: Text)
    requires a != [] && b != [] && a[0] == b[0]
    ensures ComesFirst(a, b) <==> ComesFirst(a[1..], b[1..])
  {
    var x, y := a[1..], b[1..];
    assert a == [a[0]] + x && b == [b[0]] + y;
    if |a| < |b| {
      assert b[..|a|] == [b[0]] + y[..|x|];
    }
    forall i: nat | i < |x| && i < |y| ensures a[..i + 1] == b[..i + 1] <==> x[..i] == y[..i] {
      assert a[..i + 1] == [a[0]] + x[..i] && b[..i + 1] == [b[0]] + y[..i];
      assert a[..i + 1][1..] == x[..i] && b[..i + 1][1..] == y[..i];
    }
    if i: nat :| i < |x| && i < |y| && x[..i] == y[..i] && x[i] < y[i] {
      assert a[..i + 1] == b[..i + 1] && a[i + 1] < b[i + 1];
    }
    if i: nat :| i < |a| && i < |b| && a[..i] == b[..i] && a[i] < b[i] {
      assert i > 0;
      assert x[..i - 1] == y[..i - 1] && x[i - 1] < y[i - 1];
    }
  }

  lemma KeyBeforeInOrder(a: Text, b: Text)
    requires KeyBefore(a, b)
    ensures KeysInOrder(a, b)
  {
    hide IsIndexKey, LexBefore;
    LexComesFirst(a, b);
    forall n: nat | IsIndexKey(b, n) ensures exists m: nat :: m < n && IsIndexKey(a, m) {
      IndexKeys(b, n);
      IndexKeys(a, NatValueOf(a));
      assert IsIndexKey(a, NatValueOf(a));
    }
    if IsArrayIndex(a) {
      IndexKeys(a, NatValueOf(a));
    }
    if IsArrayIndex(b) {
      IndexKeys(b, NatValueOf(b));
    }
  }

  function NatValueOf(key: Text): nat {
    if AllDigits(key) then NatValue(key) else 0
  }

  /** The members of canonical objects stand in key order, whatever order the value had them in. */
  lemma {:induction false} CanonicalIsInOrder(v: Json)
    requires WellFormed(v)
    ensures InOrder(Canonical(v))
    decreases v
  {
    hide KeysInOrder, KeyBefore;
    match v
    case Arr(items) =>
      forall x | x in CanonicalItems(items) ensures InOrder(x) {
        var i :| 0 <= i < |items| && CanonicalItems(items)[i] == x;
        CanonicalIsInOrder(items[i]);
      }
    case Obj(members) =>
      var ms := CanonicalMembers(members);
      var sorted := SortMembers(ms);
      SortOrders(ms);
      SortKeepsMembers(ms);
      forall i, j | 0 <= i < j < |sorted| ensures KeysInOrder(sorted[i].key, sorted[j].key) {
        KeyBeforeInOrder(sorted[i].key, sorted[j].key);
      }
      forall m | m in sorted ensures InOrder(m.value) {
        var i :| 0 <= i < |ms| && ms[i] == m;
        CanonicalIsInOrder(members[i].value);
      }
    case _ =>
  }
}
