/**
 * The values a key can hold, and the hash operations the hash commands call
 * (the types.Hash and types.IncHash interfaces). The hash implementation is
 * not part of this model: each operation is given here as a function on a
 * map from field to value, with the meaning the commands rely on as its
 * contract.
 */
module Types {
  import opened Wrappers
  import Decimal

  /** A hash: field name to value. */
  type Hash = map<string, string>

  /** A stored value holds exactly one kind at a time. */
  datatype Value =
    | StringVal(s: string)
    | HashVal(h: Hash)
    | ListVal(items: seq<string>)
    | SetVal(members: set<string>)

  /** The distinct field names listed in a variadic argument list. */
  function FieldSet(fields: seq<string>): set<string> {
    set f | f in fields
  }

  /**
   * HDel: deletes each listed field that is present, one after the other, and
   * counts the deletions; a field listed twice is deleted (and counted) once.
   */
  function HDel(h: Hash, fields: seq<string>): (r: (int, Hash))
    ensures HDeleted(h, fields, r)
    decreases |fields|
  {
    if fields == [] then
      assert FieldSet(fields) == {};
      (0, h)
    else
      var rest := HDel(h - {fields[0]}, fields[1..]);
      var r := if fields[0] in h then (rest.0 + 1, rest.1) else rest;
      HDelStep(h, fields, rest, r);
      r
  }

  /**
   * What HDel promises: the listed fields are gone and nothing else, the count
   * is the number of fields that went, and it is 0 exactly when none was there.
   */
  predicate HDeleted(h: Hash, fields: seq<string>, r: (int, Hash)) {
    && r.1 == h - FieldSet(fields)
    && r.0 == |h| - |r.1| && r.0 >= 0
    && (r.0 == 0 <==> h.Keys !! FieldSet(fields))
  }

  /** One deletion of HDel: deleting the first listed field, then the rest. */
  lemma {:induction false} HDelStep(h: Hash, fields: seq<string>, rest: (int, Hash), r: (int, Hash))
    requires fields != [] && HDeleted(h - {fields[0]}, fields[1..], rest)
    requires r == if fields[0] in h then (rest.0 + 1, rest.1) else rest
    ensures HDeleted(h, fields, r)
  {
    var f := fields[0];
    FieldSetCons(h, fields);
    if f in h {
      MapRemoveSize(h, f);
    } else {
      AbsentFieldIgnored(h, fields);
    }
  }

  /** A listed field the hash does not hold neither shrinks it nor meets its keys. */
  lemma AbsentFieldIgnored(h: Hash, fields: seq<string>)
    requires fields != [] && fields[0] !in h
    requires FieldSet(fields) == {fields[0]} + FieldSet(fields[1..])
    ensures h - {fields[0]} == h
    ensures h.Keys !! FieldSet(fields) <==> h.Keys !! FieldSet(fields[1..])
  {
    assert h - {fields[0]} == h;
  }

  lemma {:induction false} FieldSetCons(h: Hash, fields: seq<string>)
    requires fields != []
    ensures FieldSet(fields) == {fields[0]} + FieldSet(fields[1..])
    ensures h - FieldSet(fields) == (h - {fields[0]}) - FieldSet(fields[1..])
  {
    assert forall f :: f in fields <==> f == fields[0] || f in fields[1..];
  }

  lemma MapRemoveSize(h: Hash, f: string)
    requires f in h
    ensures |h - {f}| == |h| - 1
  {
    assert (h - {f}).Keys == h.Keys - {f};
  }

  /** HExists: whether the field is present. */
  function HExists(h: Hash, f: string): bool {
    f in h
  }

  /** HGet: the field's value and true, or "" and false when it is absent. */
  function HGet(h: Hash, f: string): (r: (string, bool))
    ensures r.1 <==> f in h
    ensures r.1 ==> r.0 == h[f]
  {
    if f in h then (h[f], true) else ("", false)
  }

  /** HLen: the number of fields. */
  function HLen(h: Hash): int {
    |h|
  }

  /** HMGet: for each requested field, its value, or nil when it is absent. */
  function HMGet(h: Hash, fields: seq<string>): (r: seq<Option<string>>)
    ensures |r| == |fields|
    ensures forall i :: 0 <= i < |fields| ==>
      (r[i].Some? <==> fields[i] in h) && (r[i].Some? ==> r[i].value == h[fields[i]])
  {
    seq(|fields|, i requires 0 <= i < |fields| =>
      if fields[i] in h then Some(h[fields[i]]) else None)
  }

  /** HSet: stores the value; true when the field did not exist before. */
  function HSet(h: Hash, f: string, v: string): (r: (bool, Hash))
    ensures r.0 <==> f !in h
    ensures r.1 == h[f := v]
  {
    (f !in h, h[f := v])
  }

  /** HSetNx: stores the value only when the field is absent; reports whether it did. */
  function HSetNx(h: Hash, f: string, v: string): (r: (bool, Hash))
    ensures r.0 <==> f !in h
    ensures r.1 == if f in h then h else h[f := v]
  {
    if f in h then (false, h) else (true, h[f := v])
  }

  /** The field names of a field/value argument list (its even positions). */
  function PairFields(pairs: seq<string>): set<string>
    requires |pairs| % 2 == 0
  {
    set i | 0 <= i < |pairs| / 2 :: pairs[2 * i]
  }

  /** HMSet: applies the field/value pairs in order, a later pair overriding an earlier one. */
  function HMSet(h: Hash, pairs: seq<string>): (r: Hash)
    requires |pairs| % 2 == 0
    ensures r.Keys == h.Keys + PairFields(pairs)
    ensures forall f :: f in h && f !in PairFields(pairs) ==> r[f] == h[f]
    ensures |pairs| >= 2 ==> pairs[|pairs| - 2] in r && r[pairs[|pairs| - 2]] == pairs[|pairs| - 1]
    ensures PairsApplied(pairs, r)
    decreases |pairs|
  {
    if pairs == [] then h
    else
      var rest := HMSet(h[pairs[0] := pairs[1]], pairs[2..]);
      PairFieldsCons(pairs);
      HMSetStep(h, pairs, rest);
      rest
  }

  /**
   * Every pair whose field no later pair names leaves its value in r: each
   * field ends up with the value of its last pair.
   */
  predicate PairsApplied(pairs: seq<string>, r: Hash) {
    forall i :: 0 <= i < |pairs| - 1 && i % 2 == 0 && LastPairFor(pairs, i) ==>
      pairs[i] in r && r[pairs[i]] == pairs[i + 1]
  }

  /** No pair after the one at index i names the same field. */
  predicate LastPairFor(pairs: seq<string>, i: int)
    requires 0 <= i < |pairs|
  {
    forall j :: i < j < |pairs| && j % 2 == 0 ==> pairs[j] != pairs[i]
  }

  /** Applying the first pair, then the others, applies them all. */
  lemma HMSetStep(h: Hash, pairs: seq<string>, rest: Hash)
    requires |pairs| >= 2 && |pairs| % 2 == 0
    requires h[pairs[0] := pairs[1]].Keys + PairFields(pairs[2..]) == rest.Keys
    requires forall f :: f in h[pairs[0] := pairs[1]] && f !in PairFields(pairs[2..]) ==>
      rest[f] == h[pairs[0] := pairs[1]][f]
    requires PairsApplied(pairs[2..], rest)
    ensures PairsApplied(pairs, rest)
  {
    forall i | 0 <= i < |pairs| - 1 && i % 2 == 0 && LastPairFor(pairs, i)
      ensures pairs[i] in rest && rest[pairs[i]] == pairs[i + 1]
    {
      if i == 0 {
        LastPairNotRepeated(pairs);
      } else {
        LastPairShifts(pairs, i);
      }
    }
  }

  /** A first pair that is its field's last names no field of the later pairs. */
  lemma LastPairNotRepeated(pairs: seq<string>)
    requires |pairs| >= 2 && |pairs| % 2 == 0 && LastPairFor(pairs, 0)
    ensures pairs[0] !in PairFields(pairs[2..])
  {
    forall k | 0 <= k < |pairs[2..]| / 2 ensures pairs[2..][2 * k] != pairs[0] {
      assert pairs[2..][2 * k] == pairs[2 * k + 2];
    }
  }

  /** A later pair that is its field's last stays so once the first pair is dropped. */
  lemma LastPairShifts(pairs: seq<string>, i: int)
    requires 2 <= i < |pairs| - 1 && LastPairFor(pairs, i)
    ensures pairs[2..][i - 2] == pairs[i] && pairs[2..][i - 1] == pairs[i + 1]
    ensures LastPairFor(pairs[2..], i - 2)
  {
    var t := pairs[2..];
    forall j | i - 2 < j < |t| && j % 2 == 0 ensures t[j] != t[i - 2] {
      assert t[j] == pairs[j + 2];
    }
  }

  /** The first pair's field, then the fields of the pairs after it. */
  lemma PairFieldsCons(pairs: seq<string>)
    requires |pairs| >= 2 && |pairs| % 2 == 0
    ensures PairFields(pairs) == {pairs[0]} + PairFields(pairs[2..])
  {
    forall f | f in PairFields(pairs) ensures f in {pairs[0]} + PairFields(pairs[2..]) {
      var i :| 0 <= i < |pairs| / 2 && pairs[2 * i] == f;
      if i > 0 { assert pairs[2..][2 * (i - 1)] == f; }
    }
    forall f | f in PairFields(pairs[2..]) ensures f in PairFields(pairs) {
      var i :| 0 <= i < |pairs[2..]| / 2 && pairs[2..][2 * i] == f;
      assert pairs[2 * (i + 1)] == f;
    }
    assert pairs[2 * 0] == pairs[0];
  }

  /**
   * HIncrBy: adds delta to the field's integer value, an absent field counting
   * as 0, stores the sum's decimal rendering and returns the sum; a value that
   * is not an integer leaves the hash unchanged and reports failure.
   */
  function HIncrBy(h: Hash, f: string, delta: int): (r: (Option<int>, Hash))
    ensures f !in h ==> r.0 == Some(delta)
    ensures f in h ==> (r.0.Some? <==> Decimal.ParseInt(h[f]).Some?)
    ensures f in h && Decimal.ParseInt(h[f]).Some? ==> r.0 == Some(Decimal.ParseInt(h[f]).value + delta)
    ensures r.0.Some? ==> r.1 == h[f := Decimal.FormatInt(r.0.value)]
    ensures r.0.None? ==> r.1 == h
  {
    var current := if f in h then Decimal.ParseInt(h[f]) else Some(0);
    match current
    case None => (None, h)
    case Some(n) => (Some(n + delta), h[f := Decimal.FormatInt(n + delta)])
  }

  /** The fields of a hash in the order the hash enumerates them (unspecified, like a Go map's). */
  ghost function HKeys(h: Hash): (ks: seq<string>)
    ensures |ks| == |h|
    ensures forall k :: k in ks <==> k in h
    ensures forall i, j :: 0 <= i < j < |ks| ==> ks[i] != ks[j]
    decreases |h|
  {
    if |h| == 0 then []
    else
      var k :| k in h;
      var rest := HKeys(h - {k});
      KeysCons(h, k, rest);
      [k] + rest
  }

  /** Putting one field in front of an enumeration of the others enumerates the whole hash. */
  lemma KeysCons(h: Hash, k: string, rest: seq<string>)
    requires k in h && |rest| == |h - {k}|
    requires forall x :: x in rest <==> x in h - {k}
    requires forall i, j :: 0 <= i < j < |rest| ==> rest[i] != rest[j]
    ensures |[k] + rest| == |h|
    ensures forall x :: x in [k] + rest <==> x in h
    ensures forall i, j :: 0 <= i < j < |[k] + rest| ==> ([k] + rest)[i] != ([k] + rest)[j]
  {
    MapRemoveSize(h, k);
    var ks := [k] + rest;
    forall i, j | 0 <= i < j < |ks| ensures ks[i] != ks[j] {
      assert ks[j] == rest[j - 1];
      if i > 0 {
        assert ks[i] == rest[i - 1];
      } else {
        assert rest[j - 1] in rest;
      }
    }
  }

  /** HVals: the values, in the order of HKeys. */
  ghost function HVals(h: Hash): (vs: seq<string>)
    ensures |vs| == |h|
    ensures forall i :: 0 <= i < |vs| ==> vs[i] == h[HKeys(h)[i]]
  {
    var ks := HKeys(h);
    seq(|ks|, i requires 0 <= i < |ks| => h[ks[i]])
  }

  /** HGetAll: field, value, field, value, ... in the order of HKeys. */
  ghost function HGetAll(h: Hash): (all: seq<string>)
    ensures |all| == 2 * |h|
    ensures forall i :: 0 <= i < |h| ==>
      all[2 * i] == HKeys(h)[i] && all[2 * i + 1] == h[HKeys(h)[i]]
  {
    Interleaved(HKeys(h), h)
  }

  /** Each listed field followed by its value. */
  function Interleaved(ks: seq<string>, h: Hash): (all: seq<string>)
    requires forall i :: 0 <= i < |ks| ==> ks[i] in h
    ensures |all| == 2 * |ks|
    ensures forall i :: 0 <= i < |ks| ==> all[2 * i] == ks[i] && all[2 * i + 1] == h[ks[i]]
  {
    if ks == [] then []
    else
      var rest := Interleaved(ks[1..], h);
      InterleavedCons(ks, h, rest);
      [ks[0], h[ks[0]]] + rest
  }

  /** The first field and its value in front of the interleaving of the others. */
  lemma InterleavedCons(ks: seq<string>, h: Hash, rest: seq<string>)
    requires ks != [] && forall i :: 0 <= i < |ks| ==> ks[i] in h
    requires |rest| == 2 * (|ks| - 1)
    requires forall i :: 0 <= i < |ks| - 1 ==> rest[2 * i] == ks[1..][i] && rest[2 * i + 1] == h[ks[1..][i]]
    ensures var all := [ks[0], h[ks[0]]] + rest;
      forall i :: 0 <= i < |ks| ==> all[2 * i] == ks[i] && all[2 * i + 1] == h[ks[i]]
  {
    var all := [ks[0], h[ks[0]]] + rest;
    forall i | 0 <= i < |ks| ensures all[2 * i] == ks[i] && all[2 * i + 1] == h[ks[i]] {
      if i > 0 {
        assert all[2 * i] == rest[2 * (i - 1)] && all[2 * i + 1] == rest[2 * (i - 1) + 1];
        assert ks[1..][i - 1] == ks[i];
      }
    }
  }

  /** A field written by HSet reads back, and the other fields keep their values. */
  lemma HSetThenHGet(h: Hash, f: string, v: string, g: string)
    ensures HGet(HSet(h, f, v).1, f) == (v, true)
    ensures g != f ==> HGet(HSet(h, f, v).1, g) == HGet(h, g)
  {
  }

  /** HSetNx never overwrites: an existing field keeps its value. */
  lemma HSetNxKeepsExisting(h: Hash, f: string, v: string)
    requires f in h
    ensures HSetNx(h, f, v) == (false, h)
  {
  }

  /** A successful increment reads back as the returned integer. */
  lemma HIncrByReadsBack(h: Hash, f: string, delta: int)
    requires HIncrBy(h, f, delta).0.Some? && Decimal.IsInt64(HIncrBy(h, f, delta).0.value)
    ensures Decimal.ParseInt(HGet(HIncrBy(h, f, delta).1, f).0) == HIncrBy(h, f, delta).0
  {
    Decimal.FormatIntRoundTrip(HIncrBy(h, f, delta).0.value);
  }
}
