/**
 * The configuration file of src/main.py: the keys the run reads at lines
 * 159-181 and 194-195, in that order, the settings the later steps use,
 * and the two updates written back at lines 301-312.
 *
 * A JSON document is a map from key to value. The insertion order of the
 * file is irrelevant here because the write-back sorts the keys (module
 * ConfigWrite).
 */
module Config {
  import opened Wrappers

  datatype Json =
    | JNull
    | JBool(b: bool)
    | JNum(n: int)
    | JStr(s: string)
    | JArray(items: seq<Json>)
    | JObject(fields: seq<(string, Json)>)

  type Document = map<string, Json>

  const OverrideKey: string := "override"
  const HoursKey: string := "hours_delay"
  const SsidsKey: string := "valid_ssids"
  const LastKey: string := "last_success"

  /** Python's truth value of a decoded JSON value. */
  predicate Truthy(j: Json) {
    match j
    case JNull => false
    case JBool(b) => b
    case JNum(n) => n != 0
    case JStr(s) => |s| > 0
    case JArray(items) => |items| > 0
    case JObject(fields) => |fields| > 0
  }

  /** What one read of the configuration needs from its key. */
  datatype Check =
    | Present(key: string)   // `config[key]`
    | Flag                   // `config["override"]`, read only without the command-line flag
    | Number(key: string)    // a number: `60 * 60 * config[key]`, `int(config[key])`
    | List(key: string)      // a list whose members are compared with `in`
    | First(key: string)     // `config[key][0]`

  datatype ConfigError = MissingKey(key: string) | Malformed(key: string)

  /** The reads in the order the run performs them. */
  const Reads: seq<Check> := [
    Present("username"), Present("password_domain"), Flag, Number(HoursKey),
    Present("airport_path"), List(SsidsKey), Present("url"), Present("protocol"),
    Present("log_filepath"), Present("log_level"), Present("destinations"),
    Present("othermodes"), Present("default_useragent"), Present("randomize_useragent"),
    Number(LastKey), First("destinations"), First("othermodes")]

  predicate Indexable(j: Json) {
    (j.JArray? && |j.items| > 0) || (j.JStr? && |j.s| > 0)
  }

  /** The error one read raises, if any. */
  function Fault(c: Check, doc: Document, cli: bool): Option<ConfigError> {
    match c
    case Present(k) => if k in doc then None else Some(MissingKey(k))
    case Flag => if cli || OverrideKey in doc then None else Some(MissingKey(OverrideKey))
    case Number(k) =>
      if k !in doc then Some(MissingKey(k))
      else if doc[k].JNum? then None else Some(Malformed(k))
    case List(k) =>
      if k !in doc then Some(MissingKey(k))
      else if doc[k].JArray? then None else Some(Malformed(k))
    case First(k) =>
      if k !in doc then Some(MissingKey(k))
      else if Indexable(doc[k]) then None else Some(Malformed(k))
  }

  /** The first error a sequence of reads raises: the run stops there. */
  function FirstFault(steps: seq<Check>, doc: Document, cli: bool): (e: Option<ConfigError>)
  {
    if |steps| == 0 then None
    else if Fault(steps[0], doc, cli).Some? then Fault(steps[0], doc, cli)
    else FirstFault(steps[1..], doc, cli)
  }

  /** The reads fail exactly when one of them does, and then with the error of
      the earliest failing one. */
  lemma {:induction false} FirstFaultIsEarliest(steps: seq<Check>, doc: Document, cli: bool)
    ensures FirstFault(steps, doc, cli).None? <==>
      forall i :: 0 <= i < |steps| ==> Fault(steps[i], doc, cli).None?
    ensures FirstFault(steps, doc, cli).Some? ==>
      exists i :: 0 <= i < |steps| && Fault(steps[i], doc, cli) == FirstFault(steps, doc, cli) &&
        forall j :: 0 <= j < i ==> Fault(steps[j], doc, cli).None?
  {
    if |steps| > 0 && Fault(steps[0], doc, cli).None? {
      FirstFaultIsEarliest(steps[1..], doc, cli);
      var e := FirstFault(steps, doc, cli);
      if e.Some? {
        var i :| 0 <= i < |steps[1..]| && Fault(steps[1..][i], doc, cli) == e &&
          forall j :: 0 <= j < i ==> Fault(steps[1..][j], doc, cli).None?;
        assert Fault(steps[i + 1], doc, cli) == e;
        forall j | 0 <= j < i + 1
          ensures Fault(steps[j], doc, cli).None?
        {
          if j > 0 {
            assert steps[j] == steps[1..][j - 1];
          }
        }
      } else {
        forall i | 0 <= i < |steps|
          ensures Fault(steps[i], doc, cli).None?
        {
          if i > 0 {
            assert steps[i] == steps[1..][i - 1];
          }
        }
      }
    }
  }

  /** The values the rest of the run uses. */
  datatype Settings = Settings(
    override: bool,
    hoursDelay: int,
    lastSuccess: Option<int>,
    validSsids: seq<string>)

  /** The strings of a JSON list: `ssid in validSSIDs` is true only for them. */
  function Strings(items: seq<Json>): (r: seq<string>)
    ensures forall s :: s in r <==> JStr(s) in items
  {
    if |items| == 0 then []
    else (if items[0].JStr? then [items[0].s] else []) + Strings(items[1..])
  }

  predicate Loadable(doc: Document, cli: bool) {
    forall i :: 0 <= i < |Reads| ==> Fault(Reads[i], doc, cli).None?
  }

  /** The reads the settings come from. */
  predicate Typed(doc: Document, cli: bool) {
    && (cli || OverrideKey in doc)
    && HoursKey in doc && doc[HoursKey].JNum?
    && SsidsKey in doc && doc[SsidsKey].JArray?
    && LastKey in doc && doc[LastKey].JNum?
  }

  lemma LoadableTyped(doc: Document, cli: bool)
    requires Loadable(doc, cli)
    ensures Typed(doc, cli)
  {
    assert Fault(Reads[2], doc, cli).None? && Fault(Reads[3], doc, cli).None?;
    assert Fault(Reads[5], doc, cli).None? && Fault(Reads[14], doc, cli).None?;
  }

  /** All reads succeed, and the settings are the effective override flag, the
      delay in hours, the last success when positive, and the string members of
      the allow-list. */
  function Load(doc: Document, cli: bool): (r: Result<Settings, ConfigError>)
    ensures r.Success? <==> Loadable(doc, cli)
    ensures r.Failure? ==>
      exists i :: 0 <= i < |Reads| && Fault(Reads[i], doc, cli) == Some(r.error) &&
        forall j :: 0 <= j < i ==> Fault(Reads[j], doc, cli).None?
    ensures r.Success? ==> Typed(doc, cli)
    ensures r.Success? ==>
      && (r.value.override <==> cli || Truthy(doc[OverrideKey]))
      && doc[HoursKey] == JNum(r.value.hoursDelay)
      && (r.value.lastSuccess.Some? <==> doc[LastKey].n > 0)
      && (r.value.lastSuccess.Some? ==> r.value.lastSuccess.value == doc[LastKey].n)
      && forall s :: s in r.value.validSsids <==> JStr(s) in doc[SsidsKey].items
  {
    FirstFaultIsEarliest(Reads, doc, cli);
    match FirstFault(Reads, doc, cli)
    case Some(e) => Failure(e)
    case None =>
      LoadableTyped(doc, cli);
      var last := doc[LastKey].n;
      Success(Settings(
        cli || Truthy(doc[OverrideKey]),
        doc[HoursKey].n,
        if last > 0 then Some(last) else None,
        Strings(doc[SsidsKey].items)))
  }

  /** The document written back after a completed exchange: override reset to
      false and, after a success, the time of this run as the last success. */
  function Persist(doc: Document, succeeded: bool, now: int): (w: Document)
    ensures OverrideKey in w && w[OverrideKey] == JBool(false)
    ensures succeeded ==> LastKey in w && w[LastKey] == JNum(now)
    ensures w.Keys == doc.Keys + {OverrideKey} + (if succeeded then {LastKey} else {})
    ensures forall k :: k in doc && k != OverrideKey && (k != LastKey || !succeeded) ==>
      w[k] == doc[k]
  {
    var d := if succeeded then doc[LastKey := JNum(now)] else doc;
    d[OverrideKey := JBool(false)]
  }

  /** A read the write-back cannot spoil: it does not need the reset flag or the
      new timestamp to have a type other than the one written. */
  predicate Survives(c: Check) {
    match c
    case Number(k) => k != OverrideKey
    case List(k) => k != OverrideKey && k != LastKey
    case First(k) => k != OverrideKey && k != LastKey
    case _ => true
  }

  lemma ReadsSurvive()
    ensures forall i :: 0 <= i < |Reads| ==> Survives(Reads[i])
  {
  }

  lemma SurvivesPersist(c: Check, doc: Document, cli: bool, succeeded: bool, now: int)
    requires Survives(c) && Fault(c, doc, cli).None?
    ensures Fault(c, Persist(doc, succeeded, now), false).None?
  {
  }

  /** The next run, started without the flag, loads the written document: the
      override is off, the delay and the allow-list are unchanged, and after a
      success the last success is this run's time when that is positive. */
  lemma {:induction false} PersistReloads(doc: Document, cli: bool, succeeded: bool, now: int)
    requires Load(doc, cli).Success?
    ensures Load(Persist(doc, succeeded, now), false).Success?
    ensures
      var s := Load(doc, cli).value;
      var t := Load(Persist(doc, succeeded, now), false).value;
      && !t.override
      && t.hoursDelay == s.hoursDelay
      && t.validSsids == s.validSsids
      && t.lastSuccess == if succeeded then (if now > 0 then Some(now) else None) else s.lastSuccess
  {
    var w := Persist(doc, succeeded, now);
    ReadsSurvive();
    forall i | 0 <= i < |Reads|
      ensures Fault(Reads[i], w, false).None?
    {
      SurvivesPersist(Reads[i], doc, cli, succeeded, now);
    }
    assert Loadable(w, false);
  }

  /** Reads that agree on two documents stop at the same place. */
  lemma {:induction false} FirstFaultAgrees(steps: seq<Check>, d1: Document, d2: Document, cli: bool)
    requires forall i :: 0 <= i < |steps| ==> Fault(steps[i], d1, cli) == Fault(steps[i], d2, cli)
    ensures FirstFault(steps, d1, cli) == FirstFault(steps, d2, cli)
  {
    if |steps| > 0 {
      assert Fault(steps[0], d1, cli) == Fault(steps[0], d2, cli);
      forall i | 0 <= i < |steps[1..]|
        ensures Fault(steps[1..][i], d1, cli) == Fault(steps[1..][i], d2, cli)
      {
        assert steps[1..][i] == steps[i + 1];
      }
      FirstFaultAgrees(steps[1..], d1, d2, cli);
    }
  }

  /** With the command-line flag the "override" key is never looked at: the
      load is the same whether the document has it or not. */
  lemma FlagSkipsOverrideKey(doc: Document)
    ensures Load(doc, true) == Load(doc - {OverrideKey}, true)
  {
    var d := doc - {OverrideKey};
    forall i | 0 <= i < |Reads|
      ensures Fault(Reads[i], doc, true) == Fault(Reads[i], d, true)
    {
      assert Reads[i].Flag? || Reads[i].key != OverrideKey;
    }
    FirstFaultAgrees(Reads, doc, d, true);
  }
}
