/**
 * The keychain step of src/main.py lines 251-257: the password is the stdout of
 * `security find-internet-password` with trailing whitespace removed, and an
 * empty password ends the run.
 */
module Credential {
  import opened Text
  import opened Wrappers

  /** bytes.rstrip() on the raw stdout, then UTF-8 decoding. Decoding after the
      strip equals stripping ASCII whitespace after decoding, because no byte of a
      multi-byte UTF-8 sequence is ASCII. */
  function Password(stdout: string): (p: string)
    ensures p <= stdout
    ensures |p| > 0 ==> !In(p[|p| - 1], AsciiSpace)
    ensures All(stdout[|p|..], AsciiSpace)
  {
    RStrip(stdout, AsciiSpace)
  }

  /** The password, or None when the run has to stop at line 257. */
  function Retrieve(stdout: string): (r: Option<string>)
    ensures r.None? <==> All(stdout, AsciiSpace)
    ensures r.Some? ==> r.value == Password(stdout) && |r.value| > 0
  {
    var p := Password(stdout);
    if |p| < 1 then None else Some(p)
  }
}
