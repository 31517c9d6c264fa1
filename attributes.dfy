/**
 * An attribute list as PHP holds it: an ordered array whose integer-keyed entries
 * are bare flags (`required`) and whose string-keyed entries are `key => value`
 * pairs. String keys are distinct, as in every PHP array. The operations are the
 * array manipulations the view classes use: `$a[$k] = $v`, `$a[] = $t`,
 * `array_merge`, `unset`, `isset` and `in_array`.
 */
module Attributes {
  import opened Options

  datatype Attr = Flag(token: string) | Keyed(key: string, val: string)

  /** No string key occurs twice. */
  predicate DistinctKeys(a: seq<Attr>) {
    forall i, j :: 0 <= i < j < |a| && a[i].Keyed? && a[j].Keyed? ==> a[i].key != a[j].key
  }

  /** A PHP attribute array. */
  type AttrList = a: seq<Attr> | DistinctKeys(a) witness []

  predicate HasKey(a: seq<Attr>, k: string) {
    exists i :: 0 <= i < |a| && a[i].Keyed? && a[i].key == k
  }

  predicate HasFlag(a: seq<Attr>, t: string) {
    exists i :: 0 <= i < |a| && a[i] == Flag(t)
  }

  /** The slot that holds string key k, if any. */
  function Position(a: seq<Attr>, k: string): (r: Option<nat>)
    ensures r.Some? ==> r.value < |a| && a[r.value].Keyed? && a[r.value].key == k
    ensures r.Some? ==> forall i :: 0 <= i < r.value ==> !(a[i].Keyed? && a[i].key == k)
    ensures r.None? <==> !HasKey(a, k)
  {
    if a == [] then None
    else if a[0].Keyed? && a[0].key == k then Some(0)
    else match Position(a[1..], k)
      case None => (assert !HasKey(a, k) by {
                      forall i | 0 <= i < |a| ensures !(a[i].Keyed? && a[i].key == k) {
                        if i > 0 { assert a[i] == a[1..][i - 1]; }
                      }
                    }
                    None)
      case Some(p) => Some(p + 1)
  }

  /** `$a[$k] ?? null`: the value stored under string key k. */
  function Lookup(a: seq<Attr>, k: string): (r: Option<string>)
    ensures r.Some? <==> HasKey(a, k)
  {
    match Position(a, k)
    case Some(i) => Some(a[i].val)
    case None => None
  }

  /** In a PHP array the slot of a key is unique. */
  lemma PositionUnique(a: AttrList, k: string, i: nat)
    requires i < |a| && a[i].Keyed? && a[i].key == k
    ensures Position(a, k) == Some(i) && Lookup(a, k) == Some(a[i].val)
  {
  }

  /** `$a[$k] = $v`: an existing key keeps its slot and takes the new value; a new key is appended. */
  function Set(a: AttrList, k: string, v: string): (r: AttrList)
    ensures HasKey(a, k) ==> |r| == |a| && r[Position(a, k).value] == Keyed(k, v)
    ensures HasKey(a, k) ==> forall i :: 0 <= i < |a| && i != Position(a, k).value ==> r[i] == a[i]
    ensures !HasKey(a, k) ==> r == a + [Keyed(k, v)]
  {
    match Position(a, k)
    case Some(i) =>
      var r := a[i := Keyed(k, v)];
      assert DistinctKeys(r) by {
        forall x, y | 0 <= x < y < |r| && r[x].Keyed? && r[y].Keyed? ensures r[x].key != r[y].key {
          assert r[x].key == a[x].key && r[y].key == a[y].key;
        }
      }
      r
    case None =>
      var r := a + [Keyed(k, v)];
      assert DistinctKeys(r) by {
        forall x, y | 0 <= x < y < |r| && r[x].Keyed? && r[y].Keyed? ensures r[x].key != r[y].key {
          if y == |a| { assert r[x] == a[x]; }
        }
      }
      r
  }

  /** After `$a[$k] = $v`, key k holds v and every other key holds what it held. */
  lemma SetLookup(a: AttrList, k: string, v: string, k': string)
    ensures Lookup(Set(a, k, v), k') == if k' == k then Some(v) else Lookup(a, k')
  {
    var r := Set(a, k, v);
    if k' == k {
      if HasKey(a, k) { PositionUnique(r, k, Position(a, k).value); }
      else { PositionUnique(r, k, |a|); }
    } else if HasKey(a, k') {
      var j := Position(a, k').value;
      assert r[j] == a[j];
      PositionUnique(r, k', j);
    } else {
      assert !HasKey(r, k');
    }
  }

  /** One entry of `array_merge`'s second operand: a flag is appended, a keyed entry is set. */
  function Put(a: AttrList, x: Attr): (r: AttrList)
    ensures |r| >= |a|
  {
    match x
    case Flag(_) =>
      var r := a + [x];
      assert DistinctKeys(r) by {
        forall i, j | 0 <= i < j < |r| && r[i].Keyed? && r[j].Keyed? ensures r[i].key != r[j].key {
          assert j < |a|;
        }
      }
      r
    case Keyed(k, v) => Set(a, k, v)
  }

  /** The entries of a PHP array after its first one. */
  function Tail(b: AttrList): (r: AttrList)
    requires b != []
    ensures r == b[1..]
  {
    assert DistinctKeys(b[1..]) by {
      forall i, j | 0 <= i < j < |b| - 1 && b[1..][i].Keyed? && b[1..][j].Keyed? ensures b[1..][i].key != b[1..][j].key {
        assert b[1..][i] == b[i + 1] && b[1..][j] == b[j + 1];
      }
    }
    b[1..]
  }

  /** `array_merge($a, $b)`: b's string keys override a's in place or are appended, b's flags are appended. */
  function Merge(a: AttrList, b: AttrList): (r: AttrList)
    ensures |r| >= |a|
    decreases |b|
  {
    if b == [] then a else Merge(Put(a, b[0]), Tail(b))
  }

  /** `unset($a[$k])`: the entry with key k is removed and the rest keep their order. */
  function Unset(a: AttrList, k: string): (r: AttrList)
    ensures !HasKey(r, k)
    ensures forall k' :: k' != k ==> Lookup(r, k') == Lookup(a, k')
  {
    match Position(a, k)
    case None => a
    case Some(p) =>
      RemoveSlot(a, k, p);
      a[..p] + a[p + 1..]
  }

  /** Removing the slot of key k keeps the keys distinct, drops k and keeps every other key's value. */
  lemma RemoveSlot(a: AttrList, k: string, p: nat)
    requires Position(a, k) == Some(p)
    ensures var r := a[..p] + a[p + 1..];
      && DistinctKeys(r)
      && !HasKey(r, k)
      && forall k' :: k' != k ==> Lookup(r, k') == Lookup(a, k')
  {
    var r := a[..p] + a[p + 1..];
    RemoveIndex(a, p);
    forall j | 0 <= j < |r| && r[j].Keyed? ensures r[j].key != k {
      var i := if j < p then j else j + 1;
      assert r[j] == a[i] && i != p;
    }
    forall k' | k' != k ensures Lookup(r, k') == Lookup(a, k') {
      RemoveLookup(a, k, p, k');
    }
  }

  /** Another key reads the same after slot p of key k is removed. */
  lemma RemoveLookup(a: AttrList, k: string, p: nat, k': string)
    requires Position(a, k) == Some(p) && k' != k
    ensures Lookup(a[..p] + a[p + 1..], k') == Lookup(a, k')
  {
    var r := a[..p] + a[p + 1..];
    RemoveIndex(a, p);
    if HasKey(a, k') {
      var j := Position(a, k').value;
      assert j != p;
      var j' := if j < p then j else j - 1;
      assert r[j'] == a[j];
      PositionUnique(a, k', j);
      PositionUnique(r, k', j');
    } else {
      forall i | 0 <= i < |r| ensures !(r[i].Keyed? && r[i].key == k') {
        assert r[i] == a[if i < p then i else i + 1];
      }
    }
  }

  /** Removing slot p shifts every later entry down by one, and the keys stay distinct. */
  lemma RemoveIndex(a: AttrList, p: nat)
    requires p < |a|
    ensures var r := a[..p] + a[p + 1..];
      && |r| == |a| - 1
      && (forall i :: 0 <= i < |r| ==> r[i] == if i < p then a[i] else a[i + 1])
      && DistinctKeys(r)
  {
    var r := a[..p] + a[p + 1..];
    assert forall i :: 0 <= i < |r| ==> r[i] == if i < p then a[i] else a[i + 1];
  }

  /** The value an entry holds: a flag's token or a keyed entry's value. */
  function ValueOf(x: Attr): string {
    match x
    case Flag(t) => t
    case Keyed(_, v) => v
  }

  /** `in_array($v, $a)`: searches the VALUES of all entries, flags and keyed alike. */
  predicate InArray(a: seq<Attr>, v: string) {
    exists i :: 0 <= i < |a| && ValueOf(a[i]) == v
  }

  /** How many times flag t occurs. */
  function FlagCount(a: seq<Attr>, t: string): nat {
    if a == [] then 0 else (if a[0] == Flag(t) then 1 else 0) + FlagCount(a[1..], t)
  }

  // ---------------------------------------------------------------------
  // array_merge

  /** A later keyed entry wins: after merging, a key holds b's value if b has it, else a's. */
  lemma {:induction false} MergeLookup(a: AttrList, b: AttrList, k: string)
    ensures Lookup(Merge(a, b), k) == if HasKey(b, k) then Lookup(b, k) else Lookup(a, k)
    decreases |b|
  {
    if b != [] {
      var b' := Tail(b);
      MergeLookup(Put(a, b[0]), b', k);
      match b[0]
      case Flag(t) =>
        assert Lookup(Put(a, b[0]), k) == Lookup(a, k) by {
          var r := a + [b[0]];
          if HasKey(a, k) { PositionUnique(r, k, Position(a, k).value); }
          else { assert !HasKey(r, k); }
        }
        LookupCons(b, k);
      case Keyed(k0, v) =>
        SetLookup(a, k0, v, k);
        LookupCons(b, k);
        if k0 == k {
          assert !HasKey(b', k);
        }
    }
  }

  /** Lookup in a non-empty array: its first entry, else the rest. */
  lemma LookupCons(b: AttrList, k: string)
    requires b != []
    ensures HasKey(b, k) <==> (b[0].Keyed? && b[0].key == k) || HasKey(b[1..], k)
    ensures Lookup(b, k) == if b[0].Keyed? && b[0].key == k then Some(b[0].val) else Lookup(b[1..], k)
  {
    if HasKey(b, k) {
      var j :| 0 <= j < |b| && b[j].Keyed? && b[j].key == k;
      if j > 0 { assert b[1..][j - 1] == b[j]; }
    }
    if HasKey(b[1..], k) {
      var j :| 0 <= j < |b[1..]| && b[1..][j].Keyed? && b[1..][j].key == k;
      assert b[j + 1] == b[1..][j];
    }
  }

  /** Merging keeps a's entries in their slots: flags unchanged, keyed slots keep their key. */
  lemma {:induction false} MergeKeepsSlots(a: AttrList, b: AttrList, i: nat)
    requires i < |a|
    ensures a[i].Flag? ==> Merge(a, b)[i] == a[i]
    ensures a[i].Keyed? ==> Merge(a, b)[i].Keyed? && Merge(a, b)[i].key == a[i].key
    decreases |b|
  {
    if b != [] {
      var a' := Put(a, b[0]);
      assert a'[i].Flag? ==> a'[i] == a[i];
      assert a'[i].Keyed? && a[i].Keyed? ==> a'[i].key == a[i].key;
      assert a[i].Flag? <==> a'[i].Flag?;
      MergeKeepsSlots(a', Tail(b), i);
    }
  }

  /** When b shares no key with a, merging simply appends b. */
  lemma {:induction false} MergeFresh(a: AttrList, b: AttrList)
    requires forall i :: 0 <= i < |b| && b[i].Keyed? ==> !HasKey(a, b[i].key)
    ensures Merge(a, b) == a + b
    decreases |b|
  {
    if b == [] {
      assert a + b == a;
    } else {
      var a' := Put(a, b[0]);
      var t := Tail(b);
      PutFresh(a, b[0]);
      forall i | 0 <= i < |t| && t[i].Keyed? ensures !HasKey(a', t[i].key) {
        assert b[i + 1] == t[i];
        assert !HasKey(a, b[i + 1].key);
        assert b[0].Keyed? ==> b[0].key != b[i + 1].key;
        HasKeyAppend(a, b[0], t[i].key);
      }
      MergeFresh(a', t);
      AppendCons(a, b);
    }
  }

  /** Moving the head of b to the end of a leaves a + b unchanged. */
  lemma AppendCons(a: seq<Attr>, b: seq<Attr>)
    requires b != []
    ensures (a + [b[0]]) + b[1..] == a + b
  {
  }

  /** Putting an entry whose key is new appends it. */
  lemma PutFresh(a: AttrList, x: Attr)
    requires x.Keyed? ==> !HasKey(a, x.key)
    ensures Put(a, x) == a + [x]
  {
  }

  /** A key is in a + [x] exactly when it is in a or is x's key. */
  lemma HasKeyAppend(a: seq<Attr>, x: Attr, k: string)
    ensures HasKey(a + [x], k) <==> HasKey(a, k) || (x.Keyed? && x.key == k)
  {
    var ax := a + [x];
    if HasKey(ax, k) {
      var j :| 0 <= j < |ax| && ax[j].Keyed? && ax[j].key == k;
      if j < |a| { assert a[j] == ax[j]; }
    }
    if HasKey(a, k) {
      var j :| 0 <= j < |a| && a[j].Keyed? && a[j].key == k;
      assert ax[j] == a[j];
    }
    if x.Keyed? && x.key == k {
      assert ax[|a|] == x;
    }
  }

  /** Merging an array that ends with one more entry: that entry is put last. */
  lemma {:induction false} MergeSnoc(a: AttrList, b: AttrList, x: Attr)
    requires DistinctKeys(b + [x])
    ensures Merge(a, b + [x]) == Put(Merge(a, b), x)
    decreases |b|
  {
    var bx: AttrList := b + [x];
    if b == [] {
      assert Tail(bx) == [];
    } else {
      assert Tail(bx) == Tail(b) + [x];
      MergeSnoc(Put(a, b[0]), Tail(b), x);
    }
  }

  /** Merging counts flags: b's flags are all appended, none of a's is lost. */
  lemma {:induction false} MergeFlagCount(a: AttrList, b: AttrList, t: string)
    ensures FlagCount(Merge(a, b), t) == FlagCount(a, t) + FlagCount(b, t)
    decreases |b|
  {
    if b != [] {
      PutFlagCount(a, b[0], t);
      MergeFlagCount(Put(a, b[0]), Tail(b), t);
    }
  }

  lemma PutFlagCount(a: AttrList, x: Attr, t: string)
    ensures FlagCount(Put(a, x), t) == FlagCount(a, t) + (if x == Flag(t) then 1 else 0)
  {
    match x
    case Flag(_) => FlagCountAppend(a, [x], t);
    case Keyed(k, v) =>
      if HasKey(a, k) {
        var p := Position(a, k).value;
        var r := Set(a, k, v);
        assert r == a[..p] + [Keyed(k, v)] + a[p + 1..];
        assert a == a[..p] + [a[p]] + a[p + 1..];
        FlagCountAppend(a[..p] + [Keyed(k, v)], a[p + 1..], t);
        FlagCountAppend(a[..p], [Keyed(k, v)], t);
        FlagCountAppend(a[..p] + [a[p]], a[p + 1..], t);
        FlagCountAppend(a[..p], [a[p]], t);
      } else {
        FlagCountAppend(a, [Keyed(k, v)], t);
      }
  }

  lemma {:induction false} FlagCountAppend(a: seq<Attr>, b: seq<Attr>, t: string)
    ensures FlagCount(a + b, t) == FlagCount(a, t) + FlagCount(b, t)
  {
    if a == [] {
      assert a + b == b;
    } else {
      assert (a + b)[1..] == a[1..] + b;
      FlagCountAppend(a[1..], b, t);
    }
  }

  /** An array of keyed entries only holds no flag. */
  lemma {:induction false} KeyedFlagCount(a: seq<Attr>)
    requires forall i :: 0 <= i < |a| ==> a[i].Keyed?
    ensures forall t :: FlagCount(a, t) == 0
  {
    if a != [] {
      assert forall i :: 0 <= i < |a[1..]| ==> a[1..][i] == a[i + 1];
      KeyedFlagCount(a[1..]);
    }
  }

  /** A flag is present exactly when it is counted. */
  lemma {:induction false} FlagCountPositive(a: seq<Attr>, t: string)
    ensures FlagCount(a, t) > 0 <==> HasFlag(a, t)
  {
    if a != [] {
      FlagCountPositive(a[1..], t);
      if HasFlag(a, t) {
        var j :| 0 <= j < |a| && a[j] == Flag(t);
        if j > 0 { assert a[1..][j - 1] == a[j]; }
      }
      if HasFlag(a[1..], t) {
        var j :| 0 <= j < |a[1..]| && a[1..][j] == Flag(t);
        assert a[j + 1] == a[1..][j];
      }
    }
  }
}
