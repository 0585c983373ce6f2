/**
 * The null-object key of srv/defkey.go: the server hands it out for a name
 * that is not in the keyspace when a command asks for the non-creating
 * default. The key only carries its name; its value is one shared stateless
 * value that stores nothing. Its reads answer as an empty value would; the
 * exceptions (writes that report nothing done, LINSERT's 0 and SUNION's
 * empty answer) are stated by the lemmas below.
 *
 * Both are stateless, so every operation is a function. A "no return"
 * operation returns the unit value `()`: it has no state to change. The
 * lemmas compare the default's answers with those of a real empty hash, list,
 * string or set.
 */
module DefaultKey {
  import opened Wrappers
  import Types
  import Lists

  /** The one shared default value. */
  const dv: DefVal := DefVal

  /** The default key: nothing but the name it was asked for. */
  datatype DefKey = DefKey(name: string) {
    function Name(): string { name }
    /** Always the one shared default value. */
    function Val(): DefVal { dv }
    /** Lock, Unlock, RLock and RUnlock have nothing to guard. */
    function Lock(): () { () }
    function Unlock(): () { () }
    function RLock(): () { () }
    function RUnlock(): () { () }
    /** Accepts any expiry (the duration and callback are ignored). */
    function Expire(ttlNanos: int): bool { true }
    function TTL(): int { 0 }
    function Abort(): bool { true }
  }

  /** The shared default value; it has no fields. */
  datatype DefVal = DefVal {
    // String operations.
    function Append(v: string): int { 0 }
    function Get(): string { "" }
    function GetRange(start: int, end: int): string { "" }
    function GetSet(v: string): string { "" }
    function Set(v: string): () { () }
    function SetRange(offset: int, v: string): int { 0 }
    function StrLen(): int { 0 }

    // Hash operations.
    function HDel(fields: seq<string>): int { 0 }
    function HExists(field: string): bool { false }
    function HGet(field: string): (string, bool) { ("", false) }
    function HGetAll(): seq<string> { [] }
    function HKeys(): seq<string> { [] }
    function HLen(): int { 0 }
    /** One nil per requested field. */
    function HMGet(fields: seq<string>): seq<Option<string>> { seq(|fields|, _ => None) }
    function HMSet(pairs: seq<string>): () { () }
    function HSet(field: string, v: string): bool { false }
    function HSetNx(field: string, v: string): bool { false }
    function HVals(): seq<string> { [] }

    // List operations.
    function LIndex(index: int): (string, bool) { ("", false) }
    function LInsertBefore(pivot: string, v: string): int { 0 }
    function LInsertAfter(pivot: string, v: string): int { 0 }
    function LLen(): int { 0 }
    function LPop(): (string, bool) { ("", false) }
    function LPush(vs: seq<string>): int { 0 }
    function LRange(start: int, stop: int): seq<string> { [] }
    function LRem(count: int, v: string): int { 0 }
    function LSet(index: int, v: string): bool { false }
    function LTrim(start: int, stop: int): () { () }
    function RPop(): (string, bool) { ("", false) }
    function RPush(vs: seq<string>): int { 0 }

    // Set operations.
    function SAdd(members: seq<string>): int { 0 }
    function SCard(): int { 0 }
    function SDiff(others: seq<set<string>>): seq<string> { [] }
    function SInter(others: seq<set<string>>): seq<string> { [] }
    function SIsMember(member: string): bool { false }
    function SMembers(): seq<string> { [] }
    function SRem(members: seq<string>): int { 0 }
    function SUnion(others: seq<set<string>>): seq<string> { [] }
  }

  /** The key reports its own name, holds the shared value, never expires and never aborts. */
  lemma KeyAnswers(name: string, ttlNanos: int)
    ensures DefKey(name).Name() == name
    ensures DefKey(name).Val() == dv
    ensures DefKey(name).TTL() == 0
    ensures DefKey(name).Expire(ttlNanos) && DefKey(name).Abort()
  {
  }

  /** Hash reads answer as an empty hash does. */
  lemma HashReadsAsEmpty(field: string, fields: seq<string>)
    ensures dv.HExists(field) == Types.HExists(map[], field)
    ensures dv.HGet(field) == Types.HGet(map[], field)
    ensures dv.HLen() == Types.HLen(map[])
    ensures dv.HMGet(fields) == Types.HMGet(map[], fields)
    ensures dv.HKeys() == Types.HKeys(map[])
    ensures dv.HVals() == Types.HVals(map[])
    ensures dv.HGetAll() == Types.HGetAll(map[])
  {
  }

  /** HMGet answers one nil per requested field, so as many entries as fields. */
  lemma HMGetOneNilPerField(fields: seq<string>)
    ensures |dv.HMGet(fields)| == |fields|
    ensures forall i :: 0 <= i < |fields| ==> dv.HMGet(fields)[i] == None
  {
  }

  /**
   * The mutators store nothing and report nothing done. HDel reports what
   * deleting from an empty hash reports; the writes report zero or false.
   */
  lemma MutatorsReportNothing(v: string, field: string, fields: seq<string>, n: int)
    ensures dv.HDel(fields) == Types.HDel(map[], fields).0 == 0
    ensures dv.HSet(field, v) == false && dv.HSetNx(field, v) == false
    ensures dv.HMSet(fields) == ()
    ensures dv.LPush(fields) == 0 && dv.RPush(fields) == 0
    ensures dv.LSet(n, v) == false && dv.LTrim(n, n) == ()
    ensures dv.SAdd(fields) == 0 && dv.SRem(fields) == 0
    ensures dv.Append(v) == 0 && dv.SetRange(n, v) == 0 && dv.Set(v) == ()
  {
  }

  /**
   * A write to the default value reports false where a real empty hash would
   * report a new field: the writing commands must create a hash first.
   */
  lemma HashWritesDifferFromEmpty(field: string, v: string)
    ensures dv.HSet(field, v) != Types.HSet(map[], field, v).0
    ensures dv.HSetNx(field, v) != Types.HSetNx(map[], field, v).0
  {
  }

  /** List reads answer as an empty list does. */
  lemma ListReadsAsEmpty(start: int, stop: int, count: int, v: string, index: int)
    ensures dv.LRange(start, stop) == Lists.LRange([], start, stop)
    ensures var empty: seq<string> := []; dv.LLen() == |empty|
    ensures Lists.Removed([], count, v) == [] && dv.LRem(count, v) == 0
    ensures dv.LIndex(index) == ("", false)
    ensures dv.LPop() == ("", false) && dv.RPop() == ("", false)
  {
  }

  /**
   * LINSERT on the default value answers 0, while an empty list without the
   * pivot answers -1: a missing key and a missing pivot stay distinguishable.
   */
  lemma InsertReportsMissingKey(pivot: string, v: string)
    ensures dv.LInsertBefore(pivot, v) == 0 != Lists.InsertedBefore([], pivot, v).1
    ensures dv.LInsertAfter(pivot, v) == 0 != Lists.InsertedAfter([], pivot, v).1
  {
  }

  /** String reads answer as the empty string does. */
  lemma StringReadsAsEmpty(start: int, end: int, v: string)
    ensures dv.Get() == "" && dv.GetSet(v) == "" && dv.GetRange(start, end) == ""
    ensures dv.StrLen() == |""|
  {
  }

  /**
   * Membership and cardinality answer as the empty set does, and so do
   * difference and intersection. The exception is SUNION: it answers empty
   * whatever the other sets hold, where a union with an empty set would not.
   */
  lemma SetReadsAsEmpty(member: string, others: seq<set<string>>)
    ensures var none: set<string> := {}; dv.SCard() == |none| && dv.SIsMember(member) == (member in none)
    ensures dv.SMembers() == []
    ensures dv.SDiff(others) == [] && dv.SInter(others) == []
    ensures dv.SUnion(others) == []
  {
  }
}
