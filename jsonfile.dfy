/**
 * The command-script reader of the load tool (tools/dreadis/jsonfile.go):
 * a decoded JSON document, a top-level array, becomes a list of runners.
 *
 * - An object with exactly one key is a command: the key is its name and the
 *   key's value, which must be an array, holds its arguments.
 * - A nested array is a pipeline: its elements are read the same way, and
 *   every one of them must then be a plain command.
 * - Anything else is an error naming the value's decoded Go type.
 *
 * The first error met, in document order, is the result; no runners are
 * returned with it. `Convert`/`Extract` state this as a recursion over the
 * tree; the method `ExtractCommands` is the loop the tool runs, proved to
 * compute exactly that.
 */
module JsonFile {
  import opened Wrappers

  /** A decoded JSON value; numbers keep their literal text, as the parser never reads them. */
  datatype Json =
    | JNull
    | JBool(b: bool)
    | JNumber(literal: string)
    | JString(s: string)
    | JArray(elems: seq<Json>)
    | JObject(fields: map<string, Json>)

  /** The Go type the standard JSON decoder gives each kind of value, as `%T` prints it. */
  function TypeName(j: Json): string {
    match j
    case JNull => "<nil>"
    case JBool(_) => "bool"
    case JNumber(_) => "float64"
    case JString(_) => "string"
    case JArray(_) => "[]interface {}"
    case JObject(_) => "map[string]interface {}"
  }

  datatype Command = Command(name: string, args: seq<Json>)

  datatype Runner = Single(cmd: Command) | Pipeline(cmds: seq<Command>)

  datatype Reason = NotSingleKey | ArgsNotArray | PipelineNotCommands | BadType(goType: string)

  /** An error names the file it was reading. */
  datatype ParseError = ParseError(path: string, reason: Reason)

  /** Why the file is invalid, as the message words it. */
  function Detail(r: Reason): string {
    match r
    case NotSingleKey => "command must have a single key"
    case ArgsNotArray => "command args must be an array"
    case PipelineNotCommands => "pipeline must contain only commands"
    case BadType(t) => "type " + t
  }

  /** The error's message text: the file, then why it is invalid. */
  function Message(e: ParseError): string {
    e.path + ": invalid JSON file (" + Detail(e.reason) + ")"
  }

  /** The one key of a one-key object. */
  ghost function OnlyKey(m: map<string, Json>): (k: string)
    requires |m| == 1
    ensures k in m
    ensures forall k' :: k' in m ==> k' == k
  {
    assert m.Keys != {};
    var k :| k in m;
    SingleKey(m, k);
    k
  }

  lemma SingleKey(m: map<string, Json>, k: string)
    requires |m| == 1 && k in m
    ensures forall k' :: k' in m ==> k' == k
  {
    assert |m.Keys - {k}| == 0;
    assert m.Keys - {k} == {};
  }

  /** The commands of runners that are all single commands. */
  function Commands(rs: seq<Runner>): (cs: seq<Command>)
    requires forall i :: 0 <= i < |rs| ==> rs[i].Single?
    ensures |cs| == |rs| && forall i :: 0 <= i < |rs| ==> cs[i] == rs[i].cmd
  {
    seq(|rs|, i requires 0 <= i < |rs| => rs[i].cmd)
  }

  /** One element of a document (or of a pipeline) as a runner. */
  ghost function Convert(p: string, j: Json): Result<Runner, ParseError>
    decreases j, 1
  {
    match j
    case JObject(fields) =>
      if |fields| != 1 then Err(ParseError(p, NotSingleKey))
      else
        var k := OnlyKey(fields);
        if fields[k].JArray? then Ok(Single(Command(k, fields[k].elems)))
        else Err(ParseError(p, ArgsNotArray))
    case JArray(es) =>
      (match Extract(p, es)
       case Err(e) => Err(e)
       case Ok(list) =>
         if forall i :: 0 <= i < |list| ==> list[i].Single? then Ok(Pipeline(Commands(list)))
         else Err(ParseError(p, PipelineNotCommands)))
    case _ => Err(ParseError(p, BadType(TypeName(j))))
  }

  /** A list of elements as runners, in order; the first element that fails decides the error. */
  ghost function Extract(p: string, cmds: seq<Json>): Result<seq<Runner>, ParseError>
    decreases cmds, 0
  {
    if cmds == [] then Ok([])
    else
      match Convert(p, cmds[0])
      case Err(e) => Err(e)
      case Ok(r) =>
        match Extract(p, cmds[1..])
        case Err(e) => Err(e)
        case Ok(rs) => Ok([r] + rs)
  }

  /** The runners already read, put in front of what the rest of the list gives. */
  function Prefixed(rs: seq<Runner>, rest: Result<seq<Runner>, ParseError>): Result<seq<Runner>, ParseError> {
    match rest
    case Err(e) => Err(e)
    case Ok(more) => Ok(rs + more)
  }

  /** Reading the list from element i on: element i, then the rest. */
  lemma ExtractFrom(p: string, cmds: seq<Json>, i: int)
    requires 0 <= i < |cmds|
    ensures Convert(p, cmds[i]).Err? ==> Extract(p, cmds[i..]) == Err(Convert(p, cmds[i]).error)
    ensures Convert(p, cmds[i]).Ok? ==>
      Extract(p, cmds[i..]) == Prefixed([Convert(p, cmds[i]).value], Extract(p, cmds[i + 1..]))
  {
    assert cmds[i..][0] == cmds[i];
    assert cmds[i..][1..] == cmds[i + 1..];
  }

  lemma PrefixedAppend(rs: seq<Runner>, r: Runner, rest: Result<seq<Runner>, ParseError>)
    ensures Prefixed(rs, Prefixed([r], rest)) == Prefixed(rs + [r], rest)
  {
    if rest.Ok? {
      assert rs + ([r] + rest.value) == rs + [r] + rest.value;
    }
  }

  // ---------------------------------------------------------------------------
  // The tool's loop.
  // ---------------------------------------------------------------------------

  method ExtractCommands(p: string, cmds: seq<Json>) returns (r: Result<seq<Runner>, ParseError>)
    ensures r == Extract(p, cmds)
    decreases cmds, 0
  {
    var rs: seq<Runner> := [];
    var i := 0;
    assert cmds[0..] == cmds;
    assert Prefixed([], Extract(p, cmds)) == Extract(p, cmds) by {
      if Extract(p, cmds).Ok? {
        assert [] + Extract(p, cmds).value == Extract(p, cmds).value;
      }
    }
    while i < |cmds|
      invariant 0 <= i <= |cmds|
      invariant Extract(p, cmds) == Prefixed(rs, Extract(p, cmds[i..]))
    {
      var cmd := cmds[i];
      ExtractFrom(p, cmds, i);
      match cmd {
        case JObject(fields) =>
          if |fields| != 1 {
            return Err(ParseError(p, NotSingleKey));
          }
          var k :| k in fields;
          SingleKey(fields, k);
          if !fields[k].JArray? {
            return Err(ParseError(p, ArgsNotArray));
          }
          PrefixedAppend(rs, Single(Command(k, fields[k].elems)), Extract(p, cmds[i + 1..]));
          rs := rs + [Single(Command(k, fields[k].elems))];
        case JArray(_) =>
          var pl := ExtractPipeline(p, cmd);
          if pl.Err? {
            return Err(pl.error);
          }
          PrefixedAppend(rs, pl.value, Extract(p, cmds[i + 1..]));
          rs := rs + [pl.value];
        case _ =>
          return Err(ParseError(p, BadType(TypeName(cmd))));
      }
      i := i + 1;
    }
    assert cmds[i..] == [];
    assert rs + [] == rs;
    return Ok(rs);
  }

  /** A nested array: reads its elements, then requires every runner to be a plain command. */
  method ExtractPipeline(p: string, j: Json) returns (r: Result<Runner, ParseError>)
    requires j.JArray?
    ensures r == Convert(p, j)
    decreases j, 1
  {
    var list := ExtractCommands(p, j.elems);
    if list.Err? {
      return Err(list.error);
    }
    var rs := list.value;
    var cmds := new Command[|rs|];
    for i := 0 to |rs|
      invariant forall m :: 0 <= m < i ==> rs[m].Single? && cmds[m] == rs[m].cmd
    {
      if !rs[i].Single? {
        return Err(ParseError(p, PipelineNotCommands));
      }
      cmds[i] := rs[i].cmd;
    }
    assert cmds[..] == Commands(rs);
    return Ok(Pipeline(cmds[..]));
  }

  // ---------------------------------------------------------------------------
  // Properties of the reader.
  // ---------------------------------------------------------------------------

  /** A list reads successfully exactly when every element does. */
  lemma {:induction false} ExtractOkIffAllConvert(p: string, cmds: seq<Json>)
    ensures Extract(p, cmds).Ok? <==> forall i :: 0 <= i < |cmds| ==> Convert(p, cmds[i]).Ok?
  {
    if cmds != [] {
      ExtractOkIffAllConvert(p, cmds[1..]);
      assert forall i :: 1 <= i < |cmds| ==> cmds[1..][i - 1] == cmds[i];
    }
  }

  /** On success there is one runner per element, each the element's own conversion, in order. */
  lemma {:induction false} ExtractOneRunnerPerElement(p: string, cmds: seq<Json>)
    requires Extract(p, cmds).Ok?
    ensures |Extract(p, cmds).value| == |cmds|
    ensures forall i :: 0 <= i < |cmds| ==> Convert(p, cmds[i]) == Ok(Extract(p, cmds).value[i])
  {
    if cmds != [] {
      ExtractOneRunnerPerElement(p, cmds[1..]);
      assert forall i :: 1 <= i < |cmds| ==> cmds[1..][i - 1] == cmds[i];
    }
  }

  /** The error is that of the first element that fails; nothing read before it is returned. */
  lemma {:induction false} ExtractFailsAtFirstFailure(p: string, cmds: seq<Json>, i: int)
    requires 0 <= i < |cmds| && Convert(p, cmds[i]).Err?
    requires forall m :: 0 <= m < i ==> Convert(p, cmds[m]).Ok?
    ensures Extract(p, cmds) == Err(Convert(p, cmds[i]).error)
  {
    if i > 0 {
      assert cmds[1..][i - 1] == cmds[i];
      assert forall m :: 0 <= m < i - 1 ==> cmds[1..][m] == cmds[m + 1];
      ExtractFailsAtFirstFailure(p, cmds[1..], i - 1);
    }
  }

  /** Every error names the file being read. */
  lemma {:induction false} ErrorsNameTheFile(p: string, cmds: seq<Json>)
    ensures Extract(p, cmds).Err? ==> Extract(p, cmds).error.path == p
    decreases cmds, 0
  {
    if cmds != [] {
      ConvertErrorNamesTheFile(p, cmds[0]);
      ErrorsNameTheFile(p, cmds[1..]);
    }
  }

  lemma {:induction false} ConvertErrorNamesTheFile(p: string, j: Json)
    ensures Convert(p, j).Err? ==> Convert(p, j).error.path == p
    decreases j, 1
  {
    if j.JArray? {
      ErrorsNameTheFile(p, j.elems);
    }
  }

  /** A one-key object whose value is an array is the command named by the key, with that array as its arguments. */
  lemma OneKeyObjectIsCommand(p: string, name: string, args: seq<Json>)
    ensures Convert(p, JObject(map[name := JArray(args)])) == Ok(Single(Command(name, args)))
  {
    var m := map[name := JArray(args)];
    assert m.Keys == {name};
    assert OnlyKey(m) == name;
  }

  /** An object with no key or several keys is refused with the single-key error. */
  lemma ObjectNeedsSingleKey(p: string, fields: map<string, Json>)
    requires |fields| != 1
    ensures Convert(p, JObject(fields)) == Err(ParseError(p, NotSingleKey))
  {
  }

  /** A one-key object whose value is not an array is refused with the args-must-be-an-array error. */
  lemma CommandArgsMustBeArray(p: string, name: string, v: Json)
    requires !v.JArray?
    ensures Convert(p, JObject(map[name := v])) == Err(ParseError(p, ArgsNotArray))
  {
    var m := map[name := v];
    assert m.Keys == {name};
    assert OnlyKey(m) == name;
  }

  /** A message starts with the file's path, and different reasons are worded differently. */
  lemma MessagesTellReasonsApart(e: ParseError, r: Reason)
    ensures |Message(e)| > |e.path| && Message(e)[..|e.path|] == e.path
    ensures Detail(e.reason) == Detail(r) ==> e.reason == r
  {
    assert Message(e) == e.path + (": invalid JSON file (" + Detail(e.reason) + ")");
    if Detail(e.reason) == Detail(r) {
      if e.reason.BadType? && r.BadType? {
        assert e.reason.goType == Detail(e.reason)[5..];
        assert r.goType == Detail(r)[5..];
      } else if e.reason.BadType? || r.BadType? {
        assert Detail(e.reason)[0] == Detail(r)[0];
      } else {
        assert Detail(e.reason)[0] == Detail(r)[0];
        assert Detail(e.reason)[8] == Detail(r)[8];
      }
    }
  }

  /** A scalar where a command is expected is refused, naming its decoded Go type. */
  lemma ScalarIsRefused(p: string, j: Json)
    requires !j.JArray? && !j.JObject?
    ensures Convert(p, j) == Err(ParseError(p, BadType(TypeName(j))))
    ensures Detail(Convert(p, j).error.reason) == "type " + TypeName(j)
    ensures TypeName(j) in {"<nil>", "bool", "float64", "string"}
  {
  }

  /** A pipeline of commands reads as those commands, in order. */
  lemma PipelineOfCommands(p: string, es: seq<Json>)
    requires forall i :: 0 <= i < |es| ==> Convert(p, es[i]).Ok? && Convert(p, es[i]).value.Single?
    ensures Convert(p, JArray(es)).Ok? && Convert(p, JArray(es)).value.Pipeline?
    ensures |Convert(p, JArray(es)).value.cmds| == |es|
    ensures forall i :: 0 <= i < |es| ==> Single(Convert(p, JArray(es)).value.cmds[i]) == Convert(p, es[i]).value
  {
    ExtractOkIffAllConvert(p, es);
    ExtractOneRunnerPerElement(p, es);
  }

  /**
   * A nested array inside a pipeline is refused: it reads as a pipeline, not a
   * command, so once the pipeline's elements have all been read the pipeline
   * check fails.
   */
  lemma NestedPipelineIsRefused(p: string, es: seq<Json>, i: int)
    requires 0 <= i < |es| && es[i].JArray?
    requires forall m :: 0 <= m < |es| ==> Convert(p, es[m]).Ok?
    ensures Convert(p, JArray(es)) == Err(ParseError(p, PipelineNotCommands))
  {
    ExtractOkIffAllConvert(p, es);
    ExtractOneRunnerPerElement(p, es);
    assert Convert(p, es[i]).value.Pipeline?;
    assert !Extract(p, es).value[i].Single?;
  }
}
