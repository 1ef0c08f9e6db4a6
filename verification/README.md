# incentive-logger: the run of `src/main.py`, modelled in Dafny

`src/main.py` logs a bike trip on a commuter-incentive website once per
cooldown period. Each run goes through these steps:

1. It stops at once on Saturday and Sunday.
2. It reads its JSON configuration.
3. It stops while the cooldown since the last logged trip is still running, unless an override is set.
4. It asks the macOS `airport -I` utility which Wi-Fi network it is on, and stops unless that network is an allowed one (the override skips this check).
5. It fetches the site password from the keychain.
6. It logs in and posts the trip.
7. It reads the notification and success text nodes of the response page.
8. After every completed exchange it writes the configuration back: the override is reset, and after a success the time is recorded as the last success.

This project models that pipeline as pure functions over plain values. It
proves what each step decides, and what the whole run does.

Modules:

- `Text` (`text.dfy`) models the Python string operations involved:
  - `str.strip()`, using Python's `isspace` set;
  - `bytes.rstrip()`, using ASCII whitespace;
  - `str.split(sep)`;
  - deleting a character class, as in `re.sub(r"[\:\-]", "", s)`.
- `Airport` (`airport.dfy`) is the dictionary comprehension that parses the `airport -I` report.
- `Network` (`network.dfy`) is the network test. It includes the `KeyError` that `network["SSID"]` raises.
- `Credential` (`credential.dfy`) is the password taken from the keychain's output.
- `Response` (`response.dfy`) is the clean-up of the response text nodes and the success test.
- `Config` (`config.dfy`):
  - the reads of the configuration, in source order, with the first missing or unusable key ending the run;
  - the settings the run uses;
  - the document written back.
- `ConfigWrite` (`configwrite.dfy`) is the sorted order in which the keys are written.
- `Schedule` (`schedule.dfy`) is the weekday and cooldown gate.
- `Workflow` (`workflow.dfy`) is one whole run.
  - Its inputs:
    - the weekday and the time;
    - the command-line flag;
    - the decoded configuration;
    - the two utilities' output;
    - the result of the HTTP exchange.
  - Its outputs are where the run ended and the document it writes, if any.

Three behaviours of the code are easy to misread:

- An empty `airport` report gives an empty dictionary. Line 241 skips the lookup (`len(network) > 1` fails), and line 320 then evaluates `network["SSID"]`, which raises `KeyError`. It is not "no connection".
- With the override set, a network whose `SSID` is empty still proceeds. The check for an empty SSID only runs on the failure branch at line 320.
- A success node that holds only `-` counts as success. It is non-blank before the punctuation is removed, so it becomes the detail `""`.

## Model

| member | source | states |
|---|---|---|
| Text.Strip | src/main.py:238 | `str.strip()`: the input is a run of whitespace, then the result, then a run of whitespace; the result is empty exactly when every character is whitespace, and otherwise starts and ends with non-whitespace |
| Text.StripUnique | src/main.py:238 | those ensures leave one possible result: any run with only whitespace around it and none at its ends is `strip()`'s result |
| Text.TrimsUnique | src/main.py:238 | for any character class, two runs of a string with only class characters around them and none at their ends are equal |
| Text.StripIdempotent | src/main.py:287 | stripping twice is stripping once |
| Text.StripUnpadded | src/main.py:287 | a string that neither starts nor ends with whitespace is unchanged by `strip()` |
| Text.Remove | src/main.py:287 | the substitution of `[\:\-]` by nothing leaves no character of the class and is never longer than its input |
| Text.RemoveKeeps | src/main.py:287 | every character outside the class survives the substitution as often as it occurs |
| Text.RemoveAppend | src/main.py:287 | the substitution works character by character: it distributes over concatenation |
| Text.RemoveNothing | src/main.py:287 | a string without the class's characters is unchanged |
| Text.Split | src/main.py:238 | `str.split(sep)`: at least one piece, more than one exactly when the separator occurs, no piece holds the separator, and joining the pieces with the separator gives back the input |
| Text.SplitJoin | src/main.py:238 | splitting a join of separator-free pieces gives back the pieces |
| Text.IndexOf | src/main.py:238 | the first occurrence of a character: it is there and not before |
| Airport.FieldParts | src/main.py:238 | for `key:value` followed by nothing or by another `:`, the entry's key is the stripped key and its value the stripped value; anything after a second `:` is lost |
| Airport.DefinedIsParsed | src/main.py:238 | every line holding a `:` contributes its key to the dictionary |
| Airport.ParsedIsDefined | src/main.py:238 | every key of the dictionary comes from some line holding a `:` |
| Airport.ParsedLastWins | src/main.py:238 | a duplicated key carries the value of the last line that defines it |
| Airport.ParsedSize | src/main.py:238 | at most one entry per line |
| Airport.EmptyOutput | src/main.py:238 | empty output gives the empty dictionary |
| Network.Decide | src/main.py:241-330 | proceed exactly when there are more than one entry, an `SSID`, and the SSID is allowed or the override is set; `KeyError` exactly when `SSID` is missing and the entry count is not one; no connection exactly for one entry or an empty SSID that did not proceed; otherwise an invalid, non-empty, disallowed SSID |
| Network.OverrideNeedsTwoEntries | src/main.py:241 | the override never rescues a dictionary with one entry or none |
| Network.OverrideIgnoresAllowList | src/main.py:241 | with the override, any dictionary with more than one entry and an `SSID` proceeds, whatever the allow-list, empty SSID included |
| Network.OverrideMonotone | src/main.py:241-330 | the override only turns a stop into proceeding, and leaves every stop it does not rescue as it was |
| Credential.Password | src/main.py:253 | the password is a prefix of the output, ends in a non-whitespace character, and only ASCII whitespace was removed after it |
| Credential.Retrieve | src/main.py:253-257 | the run stops exactly when the output is all ASCII whitespace; otherwise the password is the stripped, non-empty output |
| Response.KeptIsStripTest | src/main.py:287 | the filter `len(string.strip()) > 0` holds exactly when some character is not whitespace |
| Response.CleanNode | src/main.py:287 | a cleaned node is the node with every `:` and `-` deleted and then only whitespace removed, at both ends; it holds no `:` or `-` and neither starts nor ends with whitespace (with Text.StripUnique this fixes the result) |
| Response.Clean | src/main.py:287 | never more details than nodes |
| Response.CleanSingle | src/main.py:287 | one node gives its cleaned form when it is kept and nothing otherwise |
| Response.CleanAppend | src/main.py:293 | the comprehension works node by node and keeps the order: the details of a concatenation are the concatenated details |
| Response.CleanCons | src/main.py:293 | one step of the comprehension: the first node's contribution, then the rest's |
| Response.CleanEmpty | src/main.py:293-298 | no detail is left exactly when every node is blank |
| Response.CleanUnpunctuated | src/main.py:287 | no detail holds `:` or `-` |
| Response.SuccessIffSomeText | src/main.py:293-298 | the submission succeeded exactly when some success node is non-blank after `strip()` |
| Response.DashOnlyCounts | src/main.py:293-298 | a success node holding only `-` is kept, cleans to `""`, and makes the submission a success |
| Response.RemoveColon | src/main.py:293 | deleting the punctuation from `key:rest` joins the two sides |
| Response.ColonDropped | src/main.py:293 | a detail such as `Trip logged: OK` is reported with its colon removed and nothing else changed |
| Config.FirstFaultIsEarliest | src/main.py:159-181 | the reads fail exactly when one of them does, and then with the error of the earliest failing read |
| Config.Strings | src/main.py:241 | the SSIDs `in validSSIDs` accepts are exactly the string members of the list |
| Config.LoadableTyped | src/main.py:161-181 | once all reads succeed, the override (without the flag), `hours_delay`, `valid_ssids` and `last_success` are present with usable types |
| Config.Load | src/main.py:159-195 | the load succeeds exactly when every read does, fails with the earliest read's error, and yields the flag or-ed with the configured override's truth value, the delay, the last success when positive, and the allow-list's strings |
| Config.FirstFaultAgrees | src/main.py:159-195 | reads that agree on two documents stop at the same place |
| Config.FlagSkipsOverrideKey | src/main.py:161 | with the command-line flag the `override` key is never read: removing it changes nothing |
| Config.Persist | src/main.py:301-312 | the written document has `override` false and, after a success, `last_success` equal to the run's time; its keys are the old keys plus those two; every other key keeps its value |
| Config.PersistReloads | src/main.py:301-312 | the next run without the flag loads the written document with the override off, the same delay and allow-list, and the new or the previous last success |
| ConfigWrite.LessIrreflexive | src/main.py:304 | no key sorts before itself |
| ConfigWrite.LessTransitive | src/main.py:304 | string order is transitive |
| ConfigWrite.LessTotal | src/main.py:304 | any two different keys are ordered |
| ConfigWrite.Insert | src/main.py:304 | inserting an entry with a new key into a sorted list keeps it sorted and adds exactly that entry |
| ConfigWrite.SortedEntries | src/main.py:304-305 | the written entries are strictly sorted by key, one per key, each with its key's value, and nothing else |
| Schedule.ClosedIffTimeLeft | src/main.py:229-336 | the gate is closed exactly when there is no override, a last success is on record, and the wait reported at line 336 is positive |
| Schedule.OpenStaysOpen | src/main.py:229 | once the gate is open it stays open as time passes |
| Workflow.Submit | src/main.py:251-312 | the run stops without a write exactly when the keychain gives nothing; with a password, it fails without a write exactly when the exchange raised, and otherwise it is logged exactly when the classifier finds a success detail and rejected when it does not; a write happens exactly on a rejected or logged exchange and is the reset document (with the time after a success) |
| Workflow.Run | src/main.py:135-339 | on a weekend the run ends with no write whatever the flag; a write happens exactly on a rejected or logged submission and is the persisted document; the run fails on the configuration exactly when the load fails; a delay always has time left; a run past the network test ends as the submission step does |
| Workflow.DelayedIffGateClosed | src/main.py:229 | a loaded weekday run is delayed exactly when there is no override, a last success, and less than the delay has passed since it |
| Workflow.CredentialStepReached | src/main.py:241 | the keychain is consulted exactly on a weekday with a loadable configuration, an open gate, more than one entry, an `SSID`, and the SSID allowed or the override set |
| Workflow.NetworkDecides | src/main.py:241-330 | with the gate open, the run ends in no connection, the KeyError or an invalid network (with that SSID) exactly when the network decision says so, writing nothing, and reaches the keychain exactly when it proceeds |
| Workflow.DisallowedNetwork | src/main.py:241-330 | a non-empty SSID outside the allow-list, without the override, ends the run as that invalid network with no write |
| Workflow.WriteFollowsClassifier | src/main.py:293-312 | with a password and a response, the written document records the time exactly when some success node is non-blank after `strip()` |
| Workflow.SilentAirportRaises | src/main.py:238-320 | empty `airport` output ends in the `KeyError`, even with the override set |
| Workflow.LoggedThenDelayed | src/main.py:229-305 | a run without the flag, inside the delay after a logged trip and on the document that trip wrote, is delayed and writes nothing |
| Workflow.RejectedResetsOverride | src/main.py:307-312 | after a rejected submission the next run without the flag is not overridden and keeps the previous last success |

## Left out

- These run as subprocesses at lines 236-237 and 251-252: the `airport` and `security` calls. Their output is an input string.
- Failing to start either utility is not modelled. This happens with an empty or wrong `airport_path`, or a missing `airport` or `security` binary. `Popen` then raises at line 236 or 251, and the run ends before the network test with no write.
- Decoding that output as UTF-8 is not modelled, nor are its errors.
- The HTTP session is not modelled: the login `GET` and the form `POST` of lines 266-279, the status codes and the trip fields they send. The exchange is an input: the two lists of text nodes, or the exception that ended it. An exception ends the run with no write.
- HTML parsing and the two XPath queries (lines 283-292) are library calls. Their text-node lists are the input to `Response`.
- Opening, decoding and writing the JSON file (lines 155-156 and 301-312) are not modelled. The model uses the decoded document and returns the document to be written. The tab-indented text form is not modelled, only the key order.
- The random user agent and its side file (lines 197-208) are not modelled: they need randomness and file input.
- Logging (lines 210-226 and the messages throughout) is not modelled. This includes the `AttributeError` an unknown `log_level` would raise.
- Argument-parsing errors are not modelled.
- Time is whole seconds on one clock, so floating-point timestamps, time zones and daylight-saving shifts are not modelled. The value written at line 302 is the run's time as that integer. Likewise `hours_delay` and `last_success` are integers, not floats.
- Config.Load: the model reports a type error where Python would not:
  - It reports `Malformed` at load for a non-number `hours_delay` or `last_success` and for a non-list `valid_ssids`.
  - Python evaluates these lazily or differently:
    - a string `hours_delay` is repeated by `60 * 60 * …` and only fails when compared;
    - a numeric string `last_success` passes `int()`;
    - a string `valid_ssids` makes `in` a substring test.
- Config.Load: `destinations` and `othermodes` only need an element at index 0 (a non-empty list or string). What that element is does not matter, because the trip fields are not modelled.
