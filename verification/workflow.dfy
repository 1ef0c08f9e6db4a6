/**
 * One run of src/main.py's `__main__` block (lines 135-339), from the weekday
 * check to the configuration write-back, with every outside interaction made
 * an input: the day and time, the command-line flag, the decoded
 * configuration, the text the airport utility and the keychain print, and the
 * outcome of the HTTP exchange (the two lists of text nodes, or the exception
 * that ended it).
 */
module Workflow {
  import opened Wrappers
  import opened Schedule
  import Config
  import Airport
  import Network
  import Credential
  import Response
  import Text

  /** Where a run ends. */
  datatype Outcome =
    | Weekend
    | ConfigFailure(error: Config.ConfigError)
    | Delayed(remaining: int)
    | NetworkKeyError
    | NoConnection
    | InvalidNetwork(ssid: string)
    | NoCredential
    | TransportFailure(reason: string)
    | Rejected(notices: seq<string>)
    | Logged(notices: seq<string>, details: seq<string>)

  /** The outcome and the document written back to the configuration file, if any. */
  datatype RunResult = RunResult(outcome: Outcome, write: Option<Config.Document>)

  /** Lines 251-312: password, exchange, classification and write-back. */
  function Submit(doc: Config.Document, now: int, keychain: string,
                  exchange: Result<Response.Nodes, string>): (r: RunResult)
    ensures r.write.Some? <==> r.outcome.Logged? || r.outcome.Rejected?
    ensures r.write.Some? ==> r.write.value == Config.Persist(doc, r.outcome.Logged?, now)
    ensures r.outcome.NoCredential? <==> Credential.Retrieve(keychain).None?
    ensures r.write.Some? ==>
      exchange.Success? && r.outcome.notices == Response.Classify(exchange.value).notices
    ensures r.outcome.Logged? ==>
      && exchange.Success?
      && r.outcome.details == Response.Classify(exchange.value).details
      && |r.outcome.details| > 0
    ensures Credential.Retrieve(keychain).Some? ==>
      (r.outcome.TransportFailure? <==> exchange.Failure?)
    ensures Credential.Retrieve(keychain).Some? && exchange.Success? ==>
      (r.outcome.Logged? <==> Response.Succeeded(Response.Classify(exchange.value)))
    ensures Credential.Retrieve(keychain).Some? && exchange.Success? ==>
      r.outcome.Logged? || r.outcome.Rejected?
  {
    if Credential.Retrieve(keychain).None? then RunResult(NoCredential, None)
    else match exchange
      case Failure(reason) => RunResult(TransportFailure(reason), None)
      case Success(nodes) =>
        var c := Response.Classify(nodes);
        if Response.Succeeded(c) then
          RunResult(Logged(c.notices, c.details), Some(Config.Persist(doc, true, now)))
        else
          RunResult(Rejected(c.notices), Some(Config.Persist(doc, false, now)))
  }

  /** Lines 236-330: read the network and either go on to submit or stop. */
  function Attempt(s: Config.Settings, doc: Config.Document, now: int, airport: string,
                   keychain: string, exchange: Result<Response.Nodes, string>): RunResult
  {
    match Network.Decide(Airport.Parse(airport), s.validSsids, s.override)
    case SsidKeyError => RunResult(NetworkKeyError, None)
    case NoConnection => RunResult(NoConnection, None)
    case InvalidNetwork(ssid) => RunResult(InvalidNetwork(ssid), None)
    case Proceed(_) => Submit(doc, now, keychain, exchange)
  }

  function Run(weekday: Weekday, now: int, cli: bool, doc: Config.Document, airport: string,
               keychain: string, exchange: Result<Response.Nodes, string>): (r: RunResult)
    ensures IsWeekend(weekday) ==> r == RunResult(Weekend, None)
    ensures r.write.Some? <==> r.outcome.Logged? || r.outcome.Rejected?
    ensures r.write.Some? ==> r.write.value == Config.Persist(doc, r.outcome.Logged?, now)
    ensures r.outcome.ConfigFailure? <==> !IsWeekend(weekday) && Config.Load(doc, cli).Failure?
    ensures r.outcome.Delayed? ==> r.outcome.remaining > 0
    ensures PastNetwork(r.outcome) ==> r == Submit(doc, now, keychain, exchange)
  {
    if IsWeekend(weekday) then RunResult(Weekend, None)
    else match Config.Load(doc, cli)
      case Failure(e) => RunResult(ConfigFailure(e), None)
      case Success(s) =>
        if GateOpen(s.override, s.lastSuccess, s.hoursDelay, now) then
          Attempt(s, doc, now, airport, keychain, exchange)
        else
          ClosedIffTimeLeft(s.override, s.lastSuccess, s.hoursDelay, now);
          RunResult(Delayed(Remaining(s.lastSuccess.value, s.hoursDelay, now)), None)
  }

  /** A loaded weekday run is held back exactly when line 229's test fails. */
  lemma DelayedIffGateClosed(weekday: Weekday, now: int, cli: bool, doc: Config.Document,
                             airport: string, keychain: string,
                             exchange: Result<Response.Nodes, string>)
    requires !IsWeekend(weekday) && Config.Load(doc, cli).Success?
    ensures
      var s := Config.Load(doc, cli).value;
      Run(weekday, now, cli, doc, airport, keychain, exchange).outcome.Delayed? <==>
        !s.override && s.lastSuccess.Some? &&
        now - s.lastSuccess.value < SecondsPerHour * s.hoursDelay
  {
  }

  /** The run gets past the network test: to the keychain and beyond. */
  predicate PastNetwork(o: Outcome) {
    o.NoCredential? || o.TransportFailure? || o.Rejected? || o.Logged?
  }

  /** The keychain is consulted exactly when the run passes the weekday, load,
      delay and network tests of lines 138, 159-181, 229 and 241. */
  lemma CredentialStepReached(weekday: Weekday, now: int, cli: bool, doc: Config.Document,
                              airport: string, keychain: string,
                              exchange: Result<Response.Nodes, string>)
    ensures
      var r := Run(weekday, now, cli, doc, airport, keychain, exchange);
      var net := Airport.Parse(airport);
      PastNetwork(r.outcome) <==>
        && !IsWeekend(weekday)
        && Config.Load(doc, cli).Success?
        && var s := Config.Load(doc, cli).value;
        && GateOpen(s.override, s.lastSuccess, s.hoursDelay, now)
        && |net| > 1 && Network.SsidKey in net
        && (net[Network.SsidKey] in s.validSsids || s.override)
  {
  }

  /** Once the gate is open, the network decision of lines 241 and 320-330
      alone says where the run goes: each stop becomes the run's outcome with
      nothing written, and only Proceed reaches the keychain. */
  lemma NetworkDecides(weekday: Weekday, now: int, cli: bool, doc: Config.Document,
                       airport: string, keychain: string,
                       exchange: Result<Response.Nodes, string>)
    requires !IsWeekend(weekday) && Config.Load(doc, cli).Success?
    requires
      var s := Config.Load(doc, cli).value;
      GateOpen(s.override, s.lastSuccess, s.hoursDelay, now)
    ensures
      var s := Config.Load(doc, cli).value;
      var d := Network.Decide(Airport.Parse(airport), s.validSsids, s.override);
      var r := Run(weekday, now, cli, doc, airport, keychain, exchange);
      && (r.outcome == NoConnection <==> d == Network.NoConnection)
      && (r.outcome == NetworkKeyError <==> d == Network.SsidKeyError)
      && (r.outcome.InvalidNetwork? <==> d.InvalidNetwork?)
      && (r.outcome.InvalidNetwork? ==> r.outcome.ssid == d.ssid)
      && (PastNetwork(r.outcome) <==> d.Proceed?)
      && (!d.Proceed? ==> r.write.None?)
  {
  }

  /** A non-empty SSID that is not allowed, without the override, ends the run
      as an invalid network and writes nothing. */
  lemma DisallowedNetwork(weekday: Weekday, now: int, cli: bool, doc: Config.Document,
                          airport: string, keychain: string,
                          exchange: Result<Response.Nodes, string>)
    requires !IsWeekend(weekday) && Config.Load(doc, cli).Success?
    requires
      var s := Config.Load(doc, cli).value;
      var net := Airport.Parse(airport);
      && GateOpen(s.override, s.lastSuccess, s.hoursDelay, now)
      && !s.override
      && |net| > 1 && Network.SsidKey in net
      && net[Network.SsidKey] != "" && net[Network.SsidKey] !in s.validSsids
    ensures
      var ssid := Airport.Parse(airport)[Network.SsidKey];
      Run(weekday, now, cli, doc, airport, keychain, exchange) == RunResult(InvalidNetwork(ssid), None)
  {
  }

  /** With the password and a response in hand, the run's write follows the
      classifier: the time is recorded exactly when a success node has text. */
  lemma WriteFollowsClassifier(weekday: Weekday, now: int, cli: bool, doc: Config.Document,
                               airport: string, keychain: string, nodes: Response.Nodes)
    requires PastNetwork(Run(weekday, now, cli, doc, airport, keychain, Success(nodes)).outcome)
    requires Credential.Retrieve(keychain).Some?
    ensures
      var r := Run(weekday, now, cli, doc, airport, keychain, Success(nodes));
      var logged := exists i :: 0 <= i < |nodes.success| && |Text.Strip(nodes.success[i])| > 0;
      r.write == Some(Config.Persist(doc, logged, now))
  {
    Response.SuccessIffSomeText(nodes);
  }

  /** Output without a single `key: value` line reaches the KeyError of
      line 320, override or not. */
  lemma SilentAirportRaises(weekday: Weekday, now: int, cli: bool, doc: Config.Document,
                            keychain: string, exchange: Result<Response.Nodes, string>)
    requires !IsWeekend(weekday) && Config.Load(doc, cli).Success?
    requires Config.Load(doc, cli).value.override
    ensures Run(weekday, now, cli, doc, "", keychain, exchange) == RunResult(NetworkKeyError, None)
  {
    Airport.EmptyOutput();
  }

  /** A second run inside the delay period after a logged trip does nothing:
      the written document turns the override off and records the time. */
  lemma {:induction false} LoggedThenDelayed(
    day1: Weekday, now1: int, cli: bool, doc: Config.Document, airport1: string,
    keychain1: string, exchange1: Result<Response.Nodes, string>,
    day2: Weekday, now2: int, airport2: string, keychain2: string,
    exchange2: Result<Response.Nodes, string>)
    requires Run(day1, now1, cli, doc, airport1, keychain1, exchange1).outcome.Logged?
    requires !IsWeekend(day2) && now1 > 0
    requires now1 <= now2 < now1 + SecondsPerHour * Config.Load(doc, cli).value.hoursDelay
    ensures
      var w := Run(day1, now1, cli, doc, airport1, keychain1, exchange1).write.value;
      Run(day2, now2, false, w, airport2, keychain2, exchange2) ==
        RunResult(Delayed(now1 + SecondsPerHour * Config.Load(doc, cli).value.hoursDelay - now2), None)
  {
    var w := Run(day1, now1, cli, doc, airport1, keychain1, exchange1).write.value;
    Config.PersistReloads(doc, cli, true, now1);
  }

  /** A rejected submission still resets the override: the next run without
      the flag is not overridden and keeps the previous last success. */
  lemma RejectedResetsOverride(
    day: Weekday, now: int, cli: bool, doc: Config.Document, airport: string,
    keychain: string, exchange: Result<Response.Nodes, string>)
    requires Run(day, now, cli, doc, airport, keychain, exchange).outcome.Rejected?
    ensures
      var w := Run(day, now, cli, doc, airport, keychain, exchange).write.value;
      && Config.Load(w, false).Success?
      && !Config.Load(w, false).value.override
      && Config.Load(w, false).value.lastSuccess == Config.Load(doc, cli).value.lastSuccess
  {
    Config.PersistReloads(doc, cli, false, now);
  }
}
