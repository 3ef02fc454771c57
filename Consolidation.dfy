/** Consolidation: what the keyed store of `consolidarRegistro` holds after
    a sequence of records has been consolidated, specified as functions of
    that sequence. The store is a `LinkedHashMap`; its iteration order is
    the order in which keys were first inserted (`KeyOrder`). */
module Consolidation {
  import opened Text
  import opened Amounts
  import opened Records

  /** The store key: registration, year, quarter and account code joined
      by `_` (grouped to the right; concatenation is associative). */
  function Key(r: Record): string {
    r.regAns + ("_" + (r.year + ("_" + (r.quarter + ("_" + r.accountCode)))))
  }

  /** One `consolidarRegistro` step on the map: a new key is stored; an
      existing key is overwritten only by a strictly larger absolute
      amount, so ties keep the record already stored. */
  function Insert(m: map<string, Record>, r: Record): map<string, Record>
  {
    var k := Key(r);
    if k !in m || Abs(r.amount) > Abs(m[k].amount) then m[k := r] else m
  }

  /** After one store update the record's key is present, holding the new
      record or the one already there, and no other key has changed. */
  lemma InsertSpec(m: map<string, Record>, r: Record)
    ensures Insert(m, r).Keys == m.Keys + {Key(r)}
    ensures Insert(m, r)[Key(r)] == r || (Key(r) in m && Insert(m, r)[Key(r)] == m[Key(r)])
    ensures forall k :: k in m && k != Key(r) ==> Insert(m, r)[k] == m[k]
  {
  }

  /** The map after consolidating `rs` in order, starting empty. */
  function Consolidated(rs: seq<Record>): map<string, Record>
    decreases |rs|
  {
    if rs == [] then map[]
    else Insert(Consolidated(rs[..|rs| - 1]), rs[|rs| - 1])
  }

  /** `duplicatasEncontradas`: records whose key was already stored. */
  function Duplicates(rs: seq<Record>): nat
    decreases |rs|
  {
    if rs == [] then 0
    else
      var init := rs[..|rs| - 1];
      Duplicates(init) + (if Key(rs[|rs| - 1]) in Consolidated(init) then 1 else 0)
  }

  /** The keys in first-insertion order (the `LinkedHashMap` order). */
  function KeyOrder(rs: seq<Record>): seq<string>
    decreases |rs|
  {
    if rs == [] then []
    else
      var init := rs[..|rs| - 1];
      var k := Key(rs[|rs| - 1]);
      if k in Consolidated(init) then KeyOrder(init) else KeyOrder(init) + [k]
  }

  /** `valoresZerados`: records with amount 0. */
  function CountZero(rs: seq<Record>): nat
    decreases |rs|
  {
    if rs == [] then 0
    else CountZero(rs[..|rs| - 1]) + (if rs[|rs| - 1].amount == 0.0 then 1 else 0)
  }

  /** `valoresNegativos`: records with a negative amount. */
  function CountNegative(rs: seq<Record>): nat
    decreases |rs|
  {
    if rs == [] then 0
    else CountNegative(rs[..|rs| - 1]) + (if rs[|rs| - 1].amount < 0.0 then 1 else 0)
  }

  /** The keys of the records of `rs`. */
  function KeysOf(rs: seq<Record>): set<string> {
    set i | 0 <= i < |rs| :: Key(rs[i])
  }

  /** `rs[j]` is the record the store keeps for key `k`: the first one of
      largest absolute amount among the records with that key. */
  predicate IsWinner(rs: seq<Record>, k: string, j: int) {
    0 <= j < |rs| && Key(rs[j]) == k &&
    (forall i :: 0 <= i < j && Key(rs[i]) == k ==> Abs(rs[i].amount) < Abs(rs[j].amount)) &&
    (forall i :: j < i < |rs| && Key(rs[i]) == k ==> Abs(rs[i].amount) <= Abs(rs[j].amount))
  }

  lemma KeysOfSnoc(rs: seq<Record>, r: Record)
    ensures KeysOf(rs + [r]) == KeysOf(rs) + {Key(r)}
  {
    var s := rs + [r];
    assert s[|rs|] == r;
    forall k | k in KeysOf(s) ensures k in KeysOf(rs) + {Key(r)} {
      var i :| 0 <= i < |s| && Key(s[i]) == k;
      if i < |rs| {
        assert s[i] == rs[i];
      }
    }
    forall k | k in KeysOf(rs) ensures k in KeysOf(s) {
      var i :| 0 <= i < |rs| && Key(rs[i]) == k;
      assert s[i] == rs[i];
    }
  }

  /** The stored keys are exactly the keys of the consolidated records. */
  lemma {:induction false} ConsolidatedKeys(rs: seq<Record>)
    ensures Consolidated(rs).Keys == KeysOf(rs)
    decreases |rs|
  {
    if rs != [] {
      var init := rs[..|rs| - 1];
      ConsolidatedKeys(init);
      KeysOfSnoc(init, rs[|rs| - 1]);
      assert init + [rs[|rs| - 1]] == rs;
    }
  }

  /** Every record is stored under its own key. */
  lemma {:induction false} ConsolidatedWellKeyed(rs: seq<Record>)
    ensures forall k :: k in Consolidated(rs) ==> Key(Consolidated(rs)[k]) == k
    decreases |rs|
  {
    if rs != [] {
      ConsolidatedWellKeyed(rs[..|rs| - 1]);
    }
  }

  /** A winner stays the winner when a record that does not beat it is
      consolidated. */
  lemma WinnerKept(rs: seq<Record>, r: Record, k: string, j: int)
    requires IsWinner(rs, k, j)
    requires Key(r) == k ==> Abs(r.amount) <= Abs(rs[j].amount)
    ensures IsWinner(rs + [r], k, j) && (rs + [r])[j] == rs[j]
  {
    var s := rs + [r];
    assert s[|rs|] == r;
    assert forall i :: 0 <= i < |rs| ==> s[i] == rs[i];
  }

  /** A record that beats every earlier record of its key is the new winner. */
  lemma WinnerNew(rs: seq<Record>, r: Record)
    requires forall i :: 0 <= i < |rs| && Key(rs[i]) == Key(r) ==> Abs(rs[i].amount) < Abs(r.amount)
    ensures IsWinner(rs + [r], Key(r), |rs|) && (rs + [r])[|rs|] == r
  {
    var s := rs + [r];
    assert s[|rs|] == r;
    assert forall i :: 0 <= i < |rs| ==> s[i] == rs[i];
  }

  /** One step of the winner invariant: inserting `r` into the map `m`
      of the records `rs`. */
  lemma WinnerSnoc(rs: seq<Record>, r: Record, k: string, m: map<string, Record>)
    requires m.Keys == KeysOf(rs)
    requires k in Insert(m, r)
    requires k in m ==> exists j :: IsWinner(rs, k, j) && m[k] == rs[j]
    ensures exists j :: IsWinner(rs + [r], k, j) && Insert(m, r)[k] == (rs + [r])[j]
  {
    var s := rs + [r];
    if k in m {
      var j :| IsWinner(rs, k, j) && m[k] == rs[j];
      if Key(r) == k && Abs(r.amount) > Abs(m[k].amount) {
        WinnerNew(rs, r);
        assert IsWinner(s, k, |rs|) && Insert(m, r)[k] == s[|rs|];
      } else {
        WinnerKept(rs, r, k, j);
        assert IsWinner(s, k, j) && Insert(m, r)[k] == s[j];
      }
    } else {
      forall i | 0 <= i < |rs| ensures Key(rs[i]) != k {
        assert Key(rs[i]) in KeysOf(rs);
      }
      WinnerNew(rs, r);
      assert IsWinner(s, k, |rs|) && Insert(m, r)[k] == s[|rs|];
    }
  }

  /** For every stored key, the stored record is the first record of
      largest absolute amount among those consolidated under that key. */
  lemma {:induction false} ConsolidatedWinner(rs: seq<Record>, k: string)
    requires k in Consolidated(rs)
    ensures exists j :: IsWinner(rs, k, j) && Consolidated(rs)[k] == rs[j]
    decreases |rs|
  {
    var init := rs[..|rs| - 1];
    var r := rs[|rs| - 1];
    assert init + [r] == rs;
    ConsolidatedKeys(init);
    if k in Consolidated(init) {
      ConsolidatedWinner(init, k);
    }
    WinnerSnoc(init, r, k, Consolidated(init));
  }

  /** No record consolidated under a key has a larger absolute amount than
      the one stored for it. */
  lemma ConsolidatedMaxAbs(rs: seq<Record>, i: int)
    requires 0 <= i < |rs|
    ensures Key(rs[i]) in Consolidated(rs)
    ensures Abs(rs[i].amount) <= Abs(Consolidated(rs)[Key(rs[i])].amount)
  {
    var k := Key(rs[i]);
    ConsolidatedKeys(rs);
    assert k in KeysOf(rs);
    ConsolidatedWinner(rs, k);
    var j :| IsWinner(rs, k, j) && Consolidated(rs)[k] == rs[j];
    if i != j {
      assert Abs(rs[i].amount) <= Abs(rs[j].amount);
    }
  }

  /** Every record consolidated is either stored or counted as a duplicate:
      the map size plus the duplicate count is the number of records. */
  lemma {:induction false} SizePlusDuplicates(rs: seq<Record>)
    ensures |Consolidated(rs)| + Duplicates(rs) == |rs|
    decreases |rs|
  {
    if rs != [] {
      var init := rs[..|rs| - 1];
      SizePlusDuplicates(init);
      var m := Consolidated(init);
      var k := Key(rs[|rs| - 1]);
      if k !in m {
        assert |m[k := rs[|rs| - 1]]| == |m| + 1;
      } else {
        assert Insert(m, rs[|rs| - 1]).Keys == m.Keys;
      }
    }
  }

  /** The iteration order lists every stored key once and nothing else. */
  lemma {:induction false} KeyOrderSpec(rs: seq<Record>)
    ensures forall i, j :: 0 <= i < j < |KeyOrder(rs)| ==> KeyOrder(rs)[i] != KeyOrder(rs)[j]
    ensures forall k :: k in KeyOrder(rs) <==> k in Consolidated(rs)
    ensures |KeyOrder(rs)| == |Consolidated(rs)|
    decreases |rs|
  {
    if rs != [] {
      var init := rs[..|rs| - 1];
      KeyOrderSpec(init);
      var m := Consolidated(init);
      var k := Key(rs[|rs| - 1]);
      if k !in m {
        assert |m[k := rs[|rs| - 1]]| == |m| + 1;
      } else {
        assert Insert(m, rs[|rs| - 1]).Keys == m.Keys;
      }
    }
  }

  /** Consolidating a record that was consolidated before, at any
      earlier point, changes neither the store nor the key order; it only
      counts a duplicate. */
  lemma RepeatedRecord(rs: seq<Record>, r: Record)
    requires r in rs
    ensures Consolidated(rs + [r]) == Consolidated(rs)
    ensures KeyOrder(rs + [r]) == KeyOrder(rs)
    ensures Duplicates(rs + [r]) == Duplicates(rs) + 1
  {
    var i :| 0 <= i < |rs| && rs[i] == r;
    ConsolidatedMaxAbs(rs, i);
    assert (rs + [r])[..|rs|] == rs;
  }

  /** Of two records with the same key, the one with the larger absolute
      amount is stored (the first on a tie), and one duplicate is counted:
      amounts -50 and 30 keep the -50 record. */
  lemma LargerAbsWins(a: Record, b: Record)
    requires Key(a) == Key(b)
    ensures Consolidated([a, b]) == map[Key(a) := if Abs(b.amount) > Abs(a.amount) then b else a]
    ensures Duplicates([a, b]) == 1
  {
    assert [a, b][..1] == [a];
    assert [a][..0] == [];
    assert Consolidated([a]) == map[Key(a) := a];
    assert Duplicates([a]) == 0;
  }

  /** The store and the counters that consolidation updates. */
  datatype Store = Store(
    records: map<string, Record>,
    order: seq<string>,
    duplicates: nat,
    zeros: nat,
    negatives: nat)

  /** One `consolidarRegistro` call on the whole state: count a zero or a
      negative amount, store the record (`Insert`), append a new key to the
      order, count a key already present as a duplicate. */
  function Step(st: Store, r: Record): Store {
    var k := Key(r);
    var seen := k in st.records;
    Store(
      Insert(st.records, r),
      if seen then st.order else st.order + [k],
      st.duplicates + (if seen then 1 else 0),
      st.zeros + (if r.amount == 0.0 then 1 else 0),
      st.negatives + (if r.amount < 0.0 then 1 else 0))
  }

  /** The state after consolidating `rs` in order, starting empty. */
  function Summary(rs: seq<Record>): Store
    decreases |rs|
  {
    if rs == [] then Store(map[], [], 0, 0, 0)
    else Step(Summary(rs[..|rs| - 1]), rs[|rs| - 1])
  }

  lemma SummarySnoc(rs: seq<Record>, r: Record)
    ensures Summary(rs + [r]) == Step(Summary(rs), r)
  {
    assert (rs + [r])[..|rs|] == rs;
  }

  /** The state is, part by part, the store, the key order and the three
      counters specified above. */
  lemma {:induction false} SummaryParts(rs: seq<Record>)
    ensures Summary(rs) ==
      Store(Consolidated(rs), KeyOrder(rs), Duplicates(rs), CountZero(rs), CountNegative(rs))
    decreases |rs|
  {
    if rs != [] {
      SummaryParts(rs[..|rs| - 1]);
    }
  }

  /** The zero and negative counters count disjoint sets of records. */
  lemma {:induction false} CountersBounded(rs: seq<Record>)
    ensures CountZero(rs) + CountNegative(rs) <= |rs|
    decreases |rs|
  {
    if rs != [] {
      CountersBounded(rs[..|rs| - 1]);
    }
  }

  /** The stored records in iteration order (`values()` of the map). */
  function ValuesInOrder(rs: seq<Record>): (vs: seq<Record>)
    ensures |vs| == |Consolidated(rs)|
    ensures forall k :: k in Consolidated(rs) ==> Consolidated(rs)[k] in vs
  {
    KeyOrderSpec(rs);
    var o := KeyOrder(rs);
    var m := Consolidated(rs);
    var vs := seq(|o|, i requires 0 <= i < |o| => m[o[i]]);
    assert forall k :: k in m ==> m[k] in vs by {
      forall k | k in m ensures m[k] in vs {
        var i :| 0 <= i < |o| && o[i] == k;
        assert vs[i] == m[k];
      }
    }
    vs
  }

  // ---------------------------------------------------------------------
  // The key
  // ---------------------------------------------------------------------

  /** A shorter prefix ends where the longer has a character other than `_`. */
  lemma SeparatorMismatch(x: string, s: string, y: string, t: string)
    requires '_' !in y && |x| < |y|
    ensures x + ("_" + s) != y + ("_" + t)
  {
    var a := x + ("_" + s);
    var b := y + ("_" + t);
    assert a[|x|] == '_';
    assert b[|x|] == y[|x|];
  }

  /** Two strings without `_`, each followed by `_` and anything, agree
      on the part before the `_` and on what follows. */
  lemma SeparatorSplit(x: string, s: string, y: string, t: string)
    requires '_' !in x && '_' !in y
    requires x + ("_" + s) == y + ("_" + t)
    ensures x == y && s == t
  {
    var a := x + ("_" + s);
    if |x| < |y| {
      SeparatorMismatch(x, s, y, t);
    } else if |y| < |x| {
      SeparatorMismatch(y, t, x, s);
    } else {
      assert x == a[..|x|] == y;
      assert s == a[|x| + 1..] == t;
    }
  }

  /** When registration, year and quarter hold no `_`, two records share
      a key exactly when they agree on those three fields and the account
      code. */
  lemma KeyInjective(a: Record, b: Record)
    requires '_' !in a.regAns && '_' !in a.year && '_' !in a.quarter
    requires '_' !in b.regAns && '_' !in b.year && '_' !in b.quarter
    ensures Key(a) == Key(b) <==>
      a.regAns == b.regAns && a.year == b.year &&
      a.quarter == b.quarter && a.accountCode == b.accountCode
  {
    if Key(a) == Key(b) {
      var ua := a.quarter + ("_" + a.accountCode);
      var ub := b.quarter + ("_" + b.accountCode);
      SeparatorSplit(a.regAns, a.year + ("_" + ua), b.regAns, b.year + ("_" + ub));
      SeparatorSplit(a.year, ua, b.year, ub);
      SeparatorSplit(a.quarter, a.accountCode, b.quarter, b.accountCode);
    }
  }

  /** Without that condition keys collide: registration `x_y` with year
      `z` has the same key as registration `x` with year `y_z`. */
  lemma KeyCollision(a: Record, x: string, y: string, z: string)
    ensures Key(a.(regAns := x + "_" + y, year := z)) == Key(a.(regAns := x, year := y + "_" + z))
  {
    var rest := "_" + (a.quarter + ("_" + a.accountCode));
    assert (x + "_" + y) + ("_" + (z + rest)) == x + ("_" + ((y + "_" + z) + rest));
  }

  /** Records of the same operator and account in two different quarters
      are both kept: the store ends with two entries. */
  lemma DifferentQuartersBothKept(a: Record, b: Record)
    requires '_' !in a.regAns && '_' !in a.year && '_' !in a.quarter
    requires '_' !in b.regAns && '_' !in b.year && '_' !in b.quarter
    requires a.quarter != b.quarter
    ensures Consolidated([a, b]) == map[Key(a) := a, Key(b) := b]
  {
    KeyInjective(a, b);
    assert [a, b][..1] == [a];
    assert [a][..0] == [];
    assert Consolidated([a]) == map[Key(a) := a];
    assert Key(b) != Key(a);
  }
}
