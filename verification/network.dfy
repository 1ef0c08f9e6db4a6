/**
 * The network test of src/main.py lines 241 and 320-330: the run goes on to the
 * credential step, stops with "No network connection", stops with "Invalid
 * network", or dies on the KeyError that `network["SSID"]` raises when the
 * dictionary has no such key.
 */
module Network {

  const SsidKey: string := "SSID"

  datatype Decision =
    | Proceed(ssid: string)
    | NoConnection
    | InvalidNetwork(ssid: string)
    | SsidKeyError

  /** Python's evaluation of the two conditions, short-circuits included: the
      SSID is only looked up once the dictionary has more than one entry, or
      when the fallback test finds it has not exactly one. */
  function Decide(network: map<string, string>, validSsids: seq<string>, override: bool): (d: Decision)
    ensures d.Proceed? <==>
      |network| > 1 && SsidKey in network && (network[SsidKey] in validSsids || override)
    ensures d.Proceed? ==> d.ssid == network[SsidKey]
    ensures d.SsidKeyError? <==> SsidKey !in network && |network| != 1
    ensures d == NoConnection <==>
      |network| == 1 || (SsidKey in network && network[SsidKey] == "" && !d.Proceed?)
    ensures d.InvalidNetwork? ==>
      SsidKey in network && d.ssid == network[SsidKey] && d.ssid != "" && d.ssid !in validSsids
  {
    if |network| > 1 then
      if SsidKey !in network then SsidKeyError
      else if network[SsidKey] in validSsids || override then Proceed(network[SsidKey])
      else if |network[SsidKey]| == 0 then NoConnection
      else InvalidNetwork(network[SsidKey])
    else if |network| == 1 then NoConnection
    else SsidKeyError
  }

  /** Override never rescues a dictionary with fewer than two entries. */
  lemma OverrideNeedsTwoEntries(network: map<string, string>, validSsids: seq<string>)
    requires |network| <= 1
    ensures !Decide(network, validSsids, true).Proceed?
  {
  }

  /** With override, the allow-list is irrelevant and an empty SSID still proceeds. */
  lemma OverrideIgnoresAllowList(network: map<string, string>, a: seq<string>, b: seq<string>)
    requires |network| > 1 && SsidKey in network
    ensures Decide(network, a, true) == Decide(network, b, true) == Proceed(network[SsidKey])
  {
  }

  /** Setting override can only turn a stop into Proceed, never the reverse. */
  lemma OverrideMonotone(network: map<string, string>, validSsids: seq<string>)
    ensures Decide(network, validSsids, false).Proceed? ==> Decide(network, validSsids, true).Proceed?
    ensures !Decide(network, validSsids, true).Proceed? ==>
      Decide(network, validSsids, true) == Decide(network, validSsids, false)
  {
  }
}
