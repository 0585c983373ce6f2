/**
 * The hash commands of cmd/hashes/hashes.go, run one at a time against a
 * keyspace mapping key names to values.
 *
 * Each command declares its argument counts, which argument positions are
 * numbers, an optional validator, and what a missing key means: the shared
 * default value (reads and HDEL) or a freshly created empty hash (writes).
 * That declared data is `Def`/`Policy` below.
 *
 * The read commands are pure lookups and are functions of the keyspace. The
 * write commands change the stored hash in place (and HDEL may then delete
 * the key): each is a pure transition function giving the reply and the new
 * keyspace, and a method of the `Db` object that updates its keyspace field
 * and is proved to make exactly that transition.
 */
module Hashes {
  import opened Wrappers
  import opened Types
  import Decimal
  import DefaultKey

  // ---------------------------------------------------------------------------
  // Declared command data.
  // ---------------------------------------------------------------------------

  datatype HashCommand =
    | HDEL | HEXISTS | HGET | HGETALL | HINCRBY | HINCRBYFLOAT | HKEYS
    | HLEN | HMGET | HMSET | HSET | HSETNX | HVALS

  /** The name each command is registered under. */
  function Name(c: HashCommand): string {
    match c
    case HDEL => "hdel"
    case HEXISTS => "hexists"
    case HGET => "hget"
    case HGETALL => "hgetall"
    case HINCRBY => "hincrby"
    case HINCRBYFLOAT => "hincrbyfloat"
    case HKEYS => "hkeys"
    case HLEN => "hlen"
    case HMGET => "hmget"
    case HMSET => "hmset"
    case HSET => "hset"
    case HSETNX => "hsetnx"
    case HVALS => "hvals"
  }

  /** What looking up a missing key gives the command. */
  datatype KeyPolicy = NoKeyDefaultVal | NoKeyCreateHash

  /** An argument validator run before the body; only HMSET declares one. */
  datatype Validator = NoValidation | OddArgCount

  datatype CmdError =
    | InvalidValType
    | HashFieldNotInt
      // returned only by HINCRBYFLOAT's body, which is not part of this model
    | HashFieldNotFloat
    | WrongNumberOfArgs(command: string)

  /** The declared argument shape; a maximum of -1 means no maximum. */
  datatype ArgDef = ArgDef(minArgs: int, maxArgs: int, intIndices: seq<nat>, floatIndices: seq<nat>,
                           validate: Validator)

  function Def(c: HashCommand): ArgDef {
    match c
    case HDEL => ArgDef(2, -1, [], [], NoValidation)
    case HEXISTS => ArgDef(2, 2, [], [], NoValidation)
    case HGET => ArgDef(2, 2, [], [], NoValidation)
    case HGETALL => ArgDef(1, 1, [], [], NoValidation)
    case HINCRBY => ArgDef(3, 3, [2], [], NoValidation)
    case HINCRBYFLOAT => ArgDef(3, 3, [], [2], NoValidation)
    case HKEYS => ArgDef(1, 1, [], [], NoValidation)
    case HLEN => ArgDef(1, 1, [], [], NoValidation)
    case HMGET => ArgDef(2, -1, [], [], NoValidation)
    case HMSET => ArgDef(3, -1, [], [], OddArgCount)
    case HSET => ArgDef(3, 3, [], [], NoValidation)
    case HSETNX => ArgDef(3, 3, [], [], NoValidation)
    case HVALS => ArgDef(1, 1, [], [], NoValidation)
  }

  /** The missing-key policy; HDEL's is the one its whole-database lookup asks for. */
  function Policy(c: HashCommand): KeyPolicy {
    match c
    case HINCRBY | HINCRBYFLOAT | HMSET | HSET | HSETNX => NoKeyCreateHash
    case _ => NoKeyDefaultVal
  }

  /** HDEL alone runs against the whole database, since it may delete its key. */
  predicate WholeDb(c: HashCommand) {
    c == HDEL
  }

  /** HMSET's validator: the key plus whole field/value pairs is an odd count. */
  function Validate(v: Validator, args: seq<string>): Option<CmdError> {
    match v
    case NoValidation => None
    case OddArgCount => if |args| % 2 == 0 then Some(WrongNumberOfArgs("hmset")) else None
  }

  predicate ArgCountAccepted(d: ArgDef, n: int) {
    d.minArgs <= n && (d.maxArgs == -1 || n <= d.maxArgs)
  }

  /** The arguments reach the command body: the count is within the declared bounds and the validator passes. */
  predicate Accepts(c: HashCommand, args: seq<string>) {
    ArgCountAccepted(Def(c), |args|) && Validate(Def(c).validate, args).None?
  }

  /** The declared argument counts. */
  lemma ArityTable(c: HashCommand, n: int)
    ensures c in {HGETALL, HKEYS, HLEN, HVALS} ==> (ArgCountAccepted(Def(c), n) <==> n == 1)
    ensures c in {HEXISTS, HGET} ==> (ArgCountAccepted(Def(c), n) <==> n == 2)
    ensures c in {HSET, HSETNX, HINCRBY, HINCRBYFLOAT} ==> (ArgCountAccepted(Def(c), n) <==> n == 3)
    ensures c in {HDEL, HMGET} ==> (ArgCountAccepted(Def(c), n) <==> n >= 2)
    ensures c == HMSET ==> (ArgCountAccepted(Def(c), n) <==> n >= 3)
  {
  }

  /** The writing commands create an empty hash for a missing key; the others read the default value. */
  lemma PolicyTable(c: HashCommand)
    ensures Policy(c) == NoKeyCreateHash <==> c in {HSET, HSETNX, HMSET, HINCRBY, HINCRBYFLOAT}
    ensures WholeDb(c) <==> c == HDEL
  {
  }

  /** HINCRBY parses its third argument as an integer, HINCRBYFLOAT as a float; no other command parses numbers. */
  lemma NumericArguments(c: HashCommand)
    ensures Def(c).intIndices == if c == HINCRBY then [2] else []
    ensures Def(c).floatIndices == if c == HINCRBYFLOAT then [2] else []
  {
  }

  /**
   * HMSET takes the key and at least one whole field/value pair: an even
   * count is refused with the wrong-number-of-arguments error. No other
   * command validates.
   */
  lemma HMSetValidation(c: HashCommand, args: seq<string>)
    ensures Accepts(HMSET, args) <==> |args| >= 3 && |args| % 2 == 1
    ensures |args| % 2 == 0 ==> Validate(Def(HMSET).validate, args) == Some(WrongNumberOfArgs(Name(HMSET)))
    ensures c != HMSET ==> Validate(Def(c).validate, args) == None
  {
  }

  // ---------------------------------------------------------------------------
  // Keyspace, replies and lookups.
  // ---------------------------------------------------------------------------

  type Keyspace = map<string, Value>

  /** What a command body returns to the client. */
  datatype Reply =
    | IntReply(n: int)
    | BoolReply(b: bool)
    | StrReply(s: string)
    | NilReply
    | StrsReply(ss: seq<string>)
    | OptStrsReply(entries: seq<Option<string>>)
    | OkReply

  /** The value a key lookup yields: the stored value, or the default value of a missing key. */
  datatype Target = Stored(value: Value) | Default

  /** The lookup under the non-creating policy. */
  function Lookup(ks: Keyspace, key: string): Target {
    if key in ks then Stored(ks[key]) else Default
  }

  /** The lookup under the creating policy: a missing key first gets an empty hash. */
  function Created(ks: Keyspace, key: string): (r: Keyspace)
    ensures key in r && r - {key} == ks - {key}
    ensures r[key] == if key in ks then ks[key] else HashVal(map[])
  {
    if key in ks then ks else ks[key := HashVal(map[])]
  }

  /** Storing into a created key is storing into the original keyspace. */
  lemma StoreAfterCreate(ks: Keyspace, key: string, v: Value)
    ensures Created(ks, key)[key := v] == ks[key := v]
  {
    if key !in ks {
      assert ks[key := HashVal(map[])][key := v] == ks[key := v];
    }
  }

  /**
   * The hash a key reads as: its stored hash, the empty hash for a missing
   * key, or nothing when it holds another kind of value.
   */
  function HashView(ks: Keyspace, key: string): Option<Hash> {
    if key !in ks then Some(map[])
    else if ks[key].HashVal? then Some(ks[key].h)
    else None
  }

  /** No key holds an empty hash. */
  predicate NoEmptyHashes(ks: Keyspace) {
    forall k :: k in ks && ks[k].HashVal? ==> |ks[k].h| > 0
  }

  // ---------------------------------------------------------------------------
  // Read commands.
  // ---------------------------------------------------------------------------

  function HExistsFn(ks: Keyspace, args: seq<string>): (r: Result<Reply, CmdError>)
    requires Accepts(HEXISTS, args)
    ensures HashView(ks, args[0]).None? ==> r == Err(InvalidValType)
    ensures HashView(ks, args[0]).Some? ==> r == Ok(BoolReply(args[1] in HashView(ks, args[0]).value))
  {
    match Lookup(ks, args[0])
    case Default => Ok(BoolReply(DefaultKey.dv.HExists(args[1])))
    case Stored(v) => if v.HashVal? then Ok(BoolReply(Types.HExists(v.h, args[1]))) else Err(InvalidValType)
  }

  /** HGET: the field's value, or a nil reply when the field (or the key) is absent. */
  function HGetFn(ks: Keyspace, args: seq<string>): (r: Result<Reply, CmdError>)
    requires Accepts(HGET, args)
    ensures HashView(ks, args[0]).None? ==> r == Err(InvalidValType)
    ensures HashView(ks, args[0]).Some? ==>
      var h := HashView(ks, args[0]).value;
      r == Ok(if args[1] in h then StrReply(h[args[1]]) else NilReply)
  {
    match Lookup(ks, args[0])
    case Default => FieldReply(DefaultKey.dv.HGet(args[1]))
    case Stored(v) => if v.HashVal? then FieldReply(Types.HGet(v.h, args[1])) else Err(InvalidValType)
  }

  /** A field lookup's answer: the value when found, a nil reply otherwise. */
  function FieldReply(found: (string, bool)): Result<Reply, CmdError> {
    if found.1 then Ok(StrReply(found.0)) else Ok(NilReply)
  }

  ghost function HGetAllFn(ks: Keyspace, args: seq<string>): (r: Result<Reply, CmdError>)
    requires Accepts(HGETALL, args)
    ensures HashView(ks, args[0]).None? ==> r == Err(InvalidValType)
    ensures HashView(ks, args[0]).Some? ==>
      && r.Ok? && r.value.StrsReply?
      && |r.value.ss| == 2 * |HashView(ks, args[0]).value|
      && forall i :: 0 <= i < |HashView(ks, args[0]).value| ==>
           r.value.ss[2 * i] == Types.HKeys(HashView(ks, args[0]).value)[i]
           && r.value.ss[2 * i + 1] == HashView(ks, args[0]).value[Types.HKeys(HashView(ks, args[0]).value)[i]]
  {
    match Lookup(ks, args[0])
    case Default => Ok(StrsReply(DefaultKey.dv.HGetAll()))
    case Stored(v) => if v.HashVal? then Ok(StrsReply(Types.HGetAll(v.h))) else Err(InvalidValType)
  }

  ghost function HKeysFn(ks: Keyspace, args: seq<string>): (r: Result<Reply, CmdError>)
    requires Accepts(HKEYS, args)
    ensures HashView(ks, args[0]).None? ==> r == Err(InvalidValType)
    ensures HashView(ks, args[0]).Some? ==>
      && r.Ok? && r.value.StrsReply?
      && |r.value.ss| == |HashView(ks, args[0]).value|
      && r.value.ss == Types.HKeys(HashView(ks, args[0]).value)
      && forall f :: f in r.value.ss <==> f in HashView(ks, args[0]).value
  {
    match Lookup(ks, args[0])
    case Default => Ok(StrsReply(DefaultKey.dv.HKeys()))
    case Stored(v) => if v.HashVal? then Ok(StrsReply(Types.HKeys(v.h))) else Err(InvalidValType)
  }

  ghost function HValsFn(ks: Keyspace, args: seq<string>): (r: Result<Reply, CmdError>)
    requires Accepts(HVALS, args)
    ensures HashView(ks, args[0]).None? ==> r == Err(InvalidValType)
    ensures HashView(ks, args[0]).Some? ==>
      && r.Ok? && r.value.StrsReply?
      && |r.value.ss| == |HashView(ks, args[0]).value|
      && forall i :: 0 <= i < |r.value.ss| ==>
           r.value.ss[i] == HashView(ks, args[0]).value[Types.HKeys(HashView(ks, args[0]).value)[i]]
  {
    match Lookup(ks, args[0])
    case Default => Ok(StrsReply(DefaultKey.dv.HVals()))
    case Stored(v) => if v.HashVal? then Ok(StrsReply(Types.HVals(v.h))) else Err(InvalidValType)
  }

  function HLenFn(ks: Keyspace, args: seq<string>): (r: Result<Reply, CmdError>)
    requires Accepts(HLEN, args)
    ensures HashView(ks, args[0]).None? ==> r == Err(InvalidValType)
    ensures HashView(ks, args[0]).Some? ==> r == Ok(IntReply(|HashView(ks, args[0]).value|))
  {
    match Lookup(ks, args[0])
    case Default => Ok(IntReply(DefaultKey.dv.HLen()))
    case Stored(v) => if v.HashVal? then Ok(IntReply(Types.HLen(v.h))) else Err(InvalidValType)
  }

  /** HMGET: one entry per requested field, nil for an absent field. */
  function HMGetFn(ks: Keyspace, args: seq<string>): (r: Result<Reply, CmdError>)
    requires Accepts(HMGET, args)
    ensures HashView(ks, args[0]).None? ==> r == Err(InvalidValType)
    ensures HashView(ks, args[0]).Some? ==>
      var h := HashView(ks, args[0]).value;
      && r.Ok? && r.value.OptStrsReply? && |r.value.entries| == |args| - 1
      && forall i :: 1 <= i < |args| ==>
           r.value.entries[i - 1] == if args[i] in h then Some(h[args[i]]) else None
  {
    match Lookup(ks, args[0])
    case Default => Ok(OptStrsReply(DefaultKey.dv.HMGet(args[1..])))
    case Stored(v) => if v.HashVal? then Ok(OptStrsReply(Types.HMGet(v.h, args[1..]))) else Err(InvalidValType)
  }

  // ---------------------------------------------------------------------------
  // Write commands as transitions: (reply, new keyspace).
  // ---------------------------------------------------------------------------

  /**
   * HDEL: deletes the listed fields and answers how many it deleted; when it
   * deleted some and the hash is left with none, the key itself goes. A
   * missing key answers 0 and is not created.
   */
  function HDelOutcome(ks: Keyspace, args: seq<string>): (o: (Result<Reply, CmdError>, Keyspace))
    requires Accepts(HDEL, args)
    ensures HashView(ks, args[0]).None? ==> o == (Err(InvalidValType), ks)
    ensures args[0] !in ks ==> o == (Ok(IntReply(0)), ks)
    ensures args[0] in ks && ks[args[0]].HashVal? ==>
      var h := ks[args[0]].h;
      var left := h - FieldSet(args[1..]);
      && o.0 == Ok(IntReply(|h| - |left|))
      && o.1 == if |h| - |left| > 0 && |left| == 0 then ks - {args[0]} else ks[args[0] := HashVal(left)]
  {
    var key := args[0];
    match Lookup(ks, key)
    case Default => (Ok(IntReply(DefaultKey.dv.HDel(args[1..]))), ks)
    case Stored(v) =>
      if v.HashVal? then
        var (n, h') := Types.HDel(v.h, args[1..]);
        if n > 0 && Types.HLen(h') == 0 then (Ok(IntReply(n)), ks - {key})
        else (Ok(IntReply(n)), ks[key := HashVal(h')])
      else (Err(InvalidValType), ks)
  }

  /** HSET: stores the value; true when the field is new. */
  function HSetOutcome(ks: Keyspace, args: seq<string>): (o: (Result<Reply, CmdError>, Keyspace))
    requires Accepts(HSET, args)
    ensures HashView(ks, args[0]).None? ==> o == (Err(InvalidValType), ks)
    ensures HashView(ks, args[0]).Some? ==>
      var h := HashView(ks, args[0]).value;
      o == (Ok(BoolReply(args[1] !in h)), ks[args[0] := HashVal(h[args[1] := args[2]])])
  {
    var ks' := Created(ks, args[0]);
    var v := ks'[args[0]];
    if v.HashVal? then
      var (isNew, h') := Types.HSet(v.h, args[1], args[2]);
      StoreAfterCreate(ks, args[0], HashVal(h'));
      (Ok(BoolReply(isNew)), ks'[args[0] := HashVal(h')])
    else (Err(InvalidValType), ks')
  }

  /** HSETNX: stores the value only when the field is absent; true when it did. */
  function HSetNxOutcome(ks: Keyspace, args: seq<string>): (o: (Result<Reply, CmdError>, Keyspace))
    requires Accepts(HSETNX, args)
    ensures HashView(ks, args[0]).None? ==> o == (Err(InvalidValType), ks)
    ensures HashView(ks, args[0]).Some? ==>
      var h := HashView(ks, args[0]).value;
      && o.0 == Ok(BoolReply(args[1] !in h))
      && o.1 == ks[args[0] := HashVal(if args[1] in h then h else h[args[1] := args[2]])]
  {
    var ks' := Created(ks, args[0]);
    var v := ks'[args[0]];
    if v.HashVal? then
      var (stored, h') := Types.HSetNx(v.h, args[1], args[2]);
      StoreAfterCreate(ks, args[0], HashVal(h'));
      (Ok(BoolReply(stored)), ks'[args[0] := HashVal(h')])
    else (Err(InvalidValType), ks')
  }

  /** HMSET: applies every field/value pair and answers OK. */
  function HMSetOutcome(ks: Keyspace, args: seq<string>): (o: (Result<Reply, CmdError>, Keyspace))
    requires Accepts(HMSET, args)
    ensures HashView(ks, args[0]).None? ==> o == (Err(InvalidValType), ks)
    ensures HashView(ks, args[0]).Some? ==>
      o == (Ok(OkReply), ks[args[0] := HashVal(Types.HMSet(HashView(ks, args[0]).value, args[1..]))])
  {
    var ks' := Created(ks, args[0]);
    var v := ks'[args[0]];
    if v.HashVal? then
      StoreAfterCreate(ks, args[0], HashVal(Types.HMSet(v.h, args[1..])));
      (Ok(OkReply), ks'[args[0] := HashVal(Types.HMSet(v.h, args[1..]))])
    else (Err(InvalidValType), ks')
  }

  /**
   * HINCRBY: adds the parsed increment to the field (absent counts as 0) and
   * answers the new value; a field that does not hold an integer is refused
   * and nothing changes.
   */
  function HIncrByOutcome(ks: Keyspace, args: seq<string>, delta: int): (o: (Result<Reply, CmdError>, Keyspace))
    requires Accepts(HINCRBY, args) && Decimal.ParseInt(args[2]) == Some(delta)
    ensures HashView(ks, args[0]).None? ==> o == (Err(InvalidValType), ks)
    ensures HashView(ks, args[0]).Some? ==>
      var h := HashView(ks, args[0]).value;
      var current := if args[1] in h then Decimal.ParseInt(h[args[1]]) else Some(0);
      && (current.None? ==> o == (Err(HashFieldNotInt), ks))
      && (current.Some? ==>
            var sum := current.value + delta;
            o == (Ok(IntReply(sum)), ks[args[0] := HashVal(h[args[1] := Decimal.FormatInt(sum)])]))
  {
    var ks' := Created(ks, args[0]);
    var v := ks'[args[0]];
    if v.HashVal? then
      var (val, h') := Types.HIncrBy(v.h, args[1], delta);
      StoreAfterCreate(ks, args[0], HashVal(h'));
      if val.Some? then (Ok(IntReply(val.value)), ks'[args[0] := HashVal(h')])
      else (Err(HashFieldNotInt), ks')
    else (Err(InvalidValType), ks')
  }

  // ---------------------------------------------------------------------------
  // The database object.
  // ---------------------------------------------------------------------------

  class Db {
    var keyspace: Keyspace

    constructor (initial: Keyspace)
      ensures keyspace == initial
    {
      keyspace := initial;
    }

    /** Looks a key up under a policy; the creating policy stores an empty hash for a missing key. */
    method GetKey(key: string, policy: KeyPolicy) returns (t: Target)
      modifies this
      ensures keyspace == if policy == NoKeyCreateHash then Created(old(keyspace), key) else old(keyspace)
      ensures t == Lookup(keyspace, key)
    {
      if policy == NoKeyCreateHash && key !in keyspace {
        keyspace := keyspace[key := HashVal(map[])];
      }
      t := Lookup(keyspace, key);
    }

    /** Removes a key. */
    method DelKey(key: string)
      modifies this
      ensures keyspace == old(keyspace) - {key}
    {
      keyspace := keyspace - {key};
    }

    method HDel(args: seq<string>) returns (r: Result<Reply, CmdError>)
      requires Accepts(HDEL, args)
      modifies this
      ensures (r, keyspace) == HDelOutcome(old(keyspace), args)
    {
      var t := GetKey(args[0], Policy(HDEL));
      match t
      case Default =>
        r := Ok(IntReply(DefaultKey.dv.HDel(args[1..])));
      case Stored(v) =>
        if v.HashVal? {
          var (n, h') := Types.HDel(v.h, args[1..]);
          keyspace := keyspace[args[0] := HashVal(h')];
          if n > 0 && Types.HLen(h') == 0 {
            DelKey(args[0]);
            RemoveAfterStore(old(keyspace), args[0], HashVal(h'));
          }
          r := Ok(IntReply(n));
        } else {
          r := Err(InvalidValType);
        }
    }

    method HSet(args: seq<string>) returns (r: Result<Reply, CmdError>)
      requires Accepts(HSET, args)
      modifies this
      ensures (r, keyspace) == HSetOutcome(old(keyspace), args)
    {
      var t := GetKey(args[0], Policy(HSET));
      if t.Stored? && t.value.HashVal? {
        var (isNew, h') := Types.HSet(t.value.h, args[1], args[2]);
        keyspace := keyspace[args[0] := HashVal(h')];
        r := Ok(BoolReply(isNew));
      } else {
        r := Err(InvalidValType);
      }
    }

    method HSetNx(args: seq<string>) returns (r: Result<Reply, CmdError>)
      requires Accepts(HSETNX, args)
      modifies this
      ensures (r, keyspace) == HSetNxOutcome(old(keyspace), args)
    {
      var t := GetKey(args[0], Policy(HSETNX));
      if t.Stored? && t.value.HashVal? {
        var (stored, h') := Types.HSetNx(t.value.h, args[1], args[2]);
        keyspace := keyspace[args[0] := HashVal(h')];
        r := Ok(BoolReply(stored));
      } else {
        r := Err(InvalidValType);
      }
    }

    method HMSet(args: seq<string>) returns (r: Result<Reply, CmdError>)
      requires Accepts(HMSET, args)
      modifies this
      ensures (r, keyspace) == HMSetOutcome(old(keyspace), args)
    {
      var t := GetKey(args[0], Policy(HMSET));
      if t.Stored? && t.value.HashVal? {
        keyspace := keyspace[args[0] := HashVal(Types.HMSet(t.value.h, args[1..]))];
        r := Ok(OkReply);
      } else {
        r := Err(InvalidValType);
      }
    }

    /** `delta` is the third argument as the dispatcher parsed it. */
    method HIncrBy(args: seq<string>, delta: int) returns (r: Result<Reply, CmdError>)
      requires Accepts(HINCRBY, args) && Decimal.ParseInt(args[2]) == Some(delta)
      modifies this
      ensures (r, keyspace) == HIncrByOutcome(old(keyspace), args, delta)
    {
      var t := GetKey(args[0], Policy(HINCRBY));
      if t.Stored? && t.value.HashVal? {
        var (val, h') := Types.HIncrBy(t.value.h, args[1], delta);
        if val.Some? {
          keyspace := keyspace[args[0] := HashVal(h')];
          r := Ok(IntReply(val.value));
        } else {
          r := Err(HashFieldNotInt);
        }
      } else {
        r := Err(InvalidValType);
      }
    }
  }

  // ---------------------------------------------------------------------------
  // Properties of the commands.
  // ---------------------------------------------------------------------------

  /**
   * HDEL deletes the key exactly when the hash had fields and every one of
   * them was listed; the count it answers is the number of listed fields the
   * hash held.
   */
  lemma HDelRemovesKeyIffEmptied(ks: Keyspace, args: seq<string>)
    requires Accepts(HDEL, args) && args[0] in ks && ks[args[0]].HashVal?
    ensures var h := ks[args[0]].h;
      && (args[0] !in HDelOutcome(ks, args).1 <==> |h| > 0 && h.Keys <= FieldSet(args[1..]))
      && HDelOutcome(ks, args).0 == Ok(IntReply(|h.Keys * FieldSet(args[1..])|))
  {
    var h := ks[args[0]].h;
    var fs := FieldSet(args[1..]);
    var left := h - fs;
    assert left.Keys == h.Keys - fs;
    assert h.Keys == left.Keys + (h.Keys * fs);
    assert |h.Keys| == |left.Keys| + |h.Keys * fs|;
    if |left| == 0 {
      assert left.Keys == {};
    }
    if h.Keys <= fs {
      assert left.Keys == {};
    }
  }

  /** HDEL of a missing key answers 0 and leaves the keyspace as it was; the key is not created. */
  lemma HDelMissingKey(ks: Keyspace, args: seq<string>)
    requires Accepts(HDEL, args) && args[0] !in ks
    ensures HDelOutcome(ks, args) == (Ok(IntReply(0)), ks)
    ensures args[0] !in HDelOutcome(ks, args).1
  {
  }

  /** A key holding another kind of value: every hash read fails with the type error. */
  lemma NonHashReadRejected(ks: Keyspace, args: seq<string>)
    requires |args| >= 1 && args[0] in ks && !ks[args[0]].HashVal?
    ensures |args| == 1 ==>
      && HLenFn(ks, args) == Err(InvalidValType)
      && HKeysFn(ks, args) == Err(InvalidValType) && HValsFn(ks, args) == Err(InvalidValType)
      && HGetAllFn(ks, args) == Err(InvalidValType)
    ensures |args| == 2 ==> HExistsFn(ks, args) == Err(InvalidValType) && HGetFn(ks, args) == Err(InvalidValType)
    ensures |args| >= 2 ==> HMGetFn(ks, args) == Err(InvalidValType)
  {
  }

  /** A key holding another kind of value: every hash write fails with the type error and changes nothing. */
  lemma NonHashWriteRejected(ks: Keyspace, args: seq<string>, delta: int)
    requires |args| >= 1 && args[0] in ks && !ks[args[0]].HashVal?
    ensures |args| >= 2 ==> HDelOutcome(ks, args) == (Err(InvalidValType), ks)
    ensures |args| == 3 ==>
      && HSetOutcome(ks, args) == (Err(InvalidValType), ks)
      && HSetNxOutcome(ks, args) == (Err(InvalidValType), ks)
    ensures |args| == 3 && Decimal.ParseInt(args[2]) == Some(delta) ==>
      HIncrByOutcome(ks, args, delta) == (Err(InvalidValType), ks)
    ensures |args| >= 3 && |args| % 2 == 1 ==> HMSetOutcome(ks, args) == (Err(InvalidValType), ks)
  {
  }

  /** A missing key reads exactly as a key holding an empty hash. */
  lemma MissingKeyReadsAsEmptyHash(ks: Keyspace, args: seq<string>)
    requires |args| >= 1 && args[0] !in ks
    ensures var ks' := ks[args[0] := HashVal(map[])];
      && (|args| == 1 ==> HLenFn(ks, args) == HLenFn(ks', args) && HKeysFn(ks, args) == HKeysFn(ks', args)
                          && HValsFn(ks, args) == HValsFn(ks', args) && HGetAllFn(ks, args) == HGetAllFn(ks', args))
      && (|args| == 2 ==> HExistsFn(ks, args) == HExistsFn(ks', args) && HGetFn(ks, args) == HGetFn(ks', args))
      && (|args| >= 2 ==> HMGetFn(ks, args) == HMGetFn(ks', args))
  {
    var ks' := ks[args[0] := HashVal(map[])];
    assert HashView(ks', args[0]) == HashView(ks, args[0]);
    if |args| >= 2 {
      DefaultKey.HashReadsAsEmpty(args[1], args[1..]);
    } else {
      DefaultKey.HashReadsAsEmpty("", []);
    }
  }

  /** Storing a value and then removing its key is removing the key. */
  lemma RemoveAfterStore(ks: Keyspace, key: string, v: Value)
    ensures ks[key := v] - {key} == ks - {key}
  {
  }

  /** Storing a hash that holds some field keeps every stored hash non-empty. */
  lemma StoreKeepsNoEmptyHashes(ks: Keyspace, key: string, h: Hash, field: string)
    requires NoEmptyHashes(ks) && field in h
    ensures NoEmptyHashes(ks[key := HashVal(h)])
  {
    assert field in h.Keys;
    StoreNonEmptyKeepsNoEmptyHashes(ks, key, h);
  }

  lemma StoreNonEmptyKeepsNoEmptyHashes(ks: Keyspace, key: string, h: Hash)
    requires NoEmptyHashes(ks) && |h| > 0
    ensures NoEmptyHashes(ks[key := HashVal(h)])
  {
  }

  lemma RemoveKeepsNoEmptyHashes(ks: Keyspace, key: string)
    requires NoEmptyHashes(ks)
    ensures NoEmptyHashes(ks - {key})
  {
  }

  /**
   * HDEL changes no key but its own, and leaves no empty hash stored: a
   * hash it empties goes with its key.
   */
  lemma HDelKeepsNoEmptyHashes(ks: Keyspace, args: seq<string>)
    requires Accepts(HDEL, args)
    ensures HDelOutcome(ks, args).1 - {args[0]} == ks - {args[0]}
    ensures NoEmptyHashes(ks) ==> NoEmptyHashes(HDelOutcome(ks, args).1)
  {
    var key := args[0];
    if key in ks && ks[key].HashVal? {
      var h := ks[key].h;
      var left := h - FieldSet(args[1..]);
      RemoveAfterStore(ks, key, HashVal(left));
      if NoEmptyHashes(ks) {
        if |h| - |left| > 0 && |left| == 0 {
          RemoveKeepsNoEmptyHashes(ks, key);
        } else {
          assert |h| > 0;
          StoreNonEmptyKeepsNoEmptyHashes(ks, key, left);
        }
      }
    }
  }

  /** HSET changes no key but its own, and the hash it writes holds at least that field. */
  lemma HSetKeepsNoEmptyHashes(ks: Keyspace, args: seq<string>)
    requires Accepts(HSET, args)
    ensures HSetOutcome(ks, args).1 - {args[0]} == ks - {args[0]}
    ensures NoEmptyHashes(ks) ==> NoEmptyHashes(HSetOutcome(ks, args).1)
  {
    if HashView(ks, args[0]).Some? {
      var h := HashView(ks, args[0]).value[args[1] := args[2]];
      RemoveAfterStore(ks, args[0], HashVal(h));
      if NoEmptyHashes(ks) {
        StoreKeepsNoEmptyHashes(ks, args[0], h, args[1]);
      }
    }
  }

  /** HSETNX changes no key but its own, and the hash it leaves holds at least that field. */
  lemma HSetNxKeepsNoEmptyHashes(ks: Keyspace, args: seq<string>)
    requires Accepts(HSETNX, args)
    ensures HSetNxOutcome(ks, args).1 - {args[0]} == ks - {args[0]}
    ensures NoEmptyHashes(ks) ==> NoEmptyHashes(HSetNxOutcome(ks, args).1)
  {
    if HashView(ks, args[0]).Some? {
      var h0 := HashView(ks, args[0]).value;
      var h := if args[1] in h0 then h0 else h0[args[1] := args[2]];
      RemoveAfterStore(ks, args[0], HashVal(h));
      if NoEmptyHashes(ks) {
        StoreKeepsNoEmptyHashes(ks, args[0], h, args[1]);
      }
    }
  }

  /** HMSET changes no key but its own, and the hash it writes holds at least its last field. */
  lemma HMSetKeepsNoEmptyHashes(ks: Keyspace, args: seq<string>)
    requires Accepts(HMSET, args)
    ensures HMSetOutcome(ks, args).1 - {args[0]} == ks - {args[0]}
    ensures NoEmptyHashes(ks) ==> NoEmptyHashes(HMSetOutcome(ks, args).1)
  {
    if HashView(ks, args[0]).Some? {
      var pairs := args[1..];
      var h := Types.HMSet(HashView(ks, args[0]).value, pairs);
      RemoveAfterStore(ks, args[0], HashVal(h));
      if NoEmptyHashes(ks) {
        StoreKeepsNoEmptyHashes(ks, args[0], h, pairs[|pairs| - 2]);
      }
    }
  }

  /** HINCRBY changes no key but its own, and a hash it writes holds at least that field. */
  lemma HIncrByKeepsNoEmptyHashes(ks: Keyspace, args: seq<string>, delta: int)
    requires Accepts(HINCRBY, args) && Decimal.ParseInt(args[2]) == Some(delta)
    ensures HIncrByOutcome(ks, args, delta).1 - {args[0]} == ks - {args[0]}
    ensures NoEmptyHashes(ks) ==> NoEmptyHashes(HIncrByOutcome(ks, args, delta).1)
  {
    var o := HIncrByOutcome(ks, args, delta);
    if HashView(ks, args[0]).Some? && o.0.Ok? {
      var h := HashView(ks, args[0]).value[args[1] := Decimal.FormatInt(o.0.value.n)];
      RemoveAfterStore(ks, args[0], HashVal(h));
      if NoEmptyHashes(ks) {
        StoreKeepsNoEmptyHashes(ks, args[0], h, args[1]);
      }
    }
  }

  /** After HSET, HGET of the same field answers the stored value. */
  lemma HSetThenHGet(ks: Keyspace, key: string, field: string, v: string)
    requires HashView(ks, key).Some?
    ensures HSetOutcome(ks, [key, field, v]).0 == Ok(BoolReply(field !in HashView(ks, key).value))
    ensures HGetFn(HSetOutcome(ks, [key, field, v]).1, [key, field]) == Ok(StrReply(v))
  {
  }

  /** After a successful HINCRBY, HGET answers the new value's decimal rendering, which parses back to it. */
  lemma HIncrByThenHGet(ks: Keyspace, key: string, field: string, arg: string, delta: int)
    requires Decimal.ParseInt(arg) == Some(delta)
    requires HIncrByOutcome(ks, [key, field, arg], delta).0.Ok?
    ensures var o := HIncrByOutcome(ks, [key, field, arg], delta);
      && o.0.value.IntReply?
      && HGetFn(o.1, [key, field]) == Ok(StrReply(Decimal.FormatInt(o.0.value.n)))
      && (Decimal.IsInt64(o.0.value.n) ==> Decimal.ParseInt(HGetFn(o.1, [key, field]).value.s) == Some(o.0.value.n))
  {
    var o := HIncrByOutcome(ks, [key, field, arg], delta);
    if Decimal.IsInt64(o.0.value.n) {
      Decimal.FormatIntRoundTrip(o.0.value.n);
    }
  }

  /** A failed HINCRBY (a field that is not an integer) leaves the keyspace as it was. */
  lemma HIncrByFailureChangesNothing(ks: Keyspace, args: seq<string>, delta: int)
    requires Accepts(HINCRBY, args) && Decimal.ParseInt(args[2]) == Some(delta)
    requires HIncrByOutcome(ks, args, delta).0.Err?
    ensures HIncrByOutcome(ks, args, delta).1 == ks
    ensures args[0] in ks
  {
  }

  /** A created hash is never left empty: on a missing key every write stores the field it names. */
  lemma CreatedHashIsNotEmpty(ks: Keyspace, args: seq<string>)
    requires |args| == 3 && args[0] !in ks
    ensures HSetOutcome(ks, args).1[args[0]] == HashVal(map[args[1] := args[2]])
    ensures HSetNxOutcome(ks, args).1[args[0]] == HashVal(map[args[1] := args[2]])
    ensures HMSetOutcome(ks, args).1[args[0]] == HashVal(map[args[1] := args[2]])
  {
    var pairs := args[1..];
    var r := Types.HMSet(map[], pairs);
    assert PairFields(pairs) == {args[1]} by {
      assert pairs[2 * 0] == args[1];
    }
    assert r.Keys == {args[1]};
    assert r == map[args[1] := args[2]];
  }

  /** HINCRBY on a missing key creates a hash whose one field holds the delta. */
  lemma IncrementCreatesHash(ks: Keyspace, args: seq<string>, delta: int)
    requires |args| == 3 && args[0] !in ks && Decimal.ParseInt(args[2]) == Some(delta)
    ensures HIncrByOutcome(ks, args, delta) == (Ok(IntReply(delta)), ks[args[0] := HashVal(map[args[1] := Decimal.FormatInt(delta)])])
  {
  }
}
