/**
 * The classification of the form-submission response, src/main.py lines
 * 286-298. The text nodes of `p.notification` and `span.success` come in as
 * lists; a node is kept when its stripped form is non-empty, and a kept node is
 * reported with every ':' and '-' deleted and then stripped. The submission
 * succeeded when any success detail is left.
 */
module Response {
  import opened Text

  /** The characters of the regular-expression class [\:\-]. */
  const Punctuation: set<char> := {':', '-'}

  /** The text nodes of the two XPath queries, in document order. */
  datatype Nodes = Nodes(notification: seq<string>, success: seq<string>)

  /** The cleaned notification and success details. */
  datatype Classification = Classification(notices: seq<string>, details: seq<string>)

  /** The comprehension's filter `len(string.strip()) > 0`, stated as "some
      character is not whitespace" (KeptIsStripTest shows the two agree). */
  predicate Kept(node: string) {
    !All(node, UnicodeSpace)
  }

  lemma KeptIsStripTest(node: string)
    ensures Kept(node) <==> |Strip(node)| > 0
  {
  }

  /** No character of s is in the punctuation class. */
  predicate Unpunctuated(s: string) {
    forall j :: 0 <= j < |s| ==> s[j] !in Punctuation
  }

  /** The comprehension's mapping: the node with ':' and '-' deleted, then with
      the whitespace at both ends removed (StripUnique shows these ensures
      leave exactly one result). */
  function CleanNode(node: string): (r: string)
    ensures Trims(r, Remove(node, Punctuation), UnicodeSpace)
    ensures Unpunctuated(r)
    ensures |r| > 0 ==> !IsSpace(r[0]) && !IsSpace(r[|r| - 1])
  {
    var cut := Remove(node, Punctuation);
    TrimAvoids(Strip(cut), cut, UnicodeSpace, Punctuation);
    Strip(cut)
  }

  /** The kept-and-cleaned form of one node: a singleton or nothing. */
  function CleanOne(node: string): seq<string> {
    if Kept(node) then [CleanNode(node)] else []
  }

  /** `[CleanNode(s) for s in nodes if Kept(s)]`. */
  function Clean(nodes: seq<string>): (r: seq<string>)
    ensures |r| <= |nodes|
  {
    if |nodes| == 0 then []
    else
      CleanOne(nodes[0]) + Clean(nodes[1..])
  }

  /** Nothing is left exactly when every node is blank. */
  lemma {:induction false} CleanEmpty(nodes: seq<string>)
    ensures |Clean(nodes)| == 0 <==> forall i :: 0 <= i < |nodes| ==> !Kept(nodes[i])
    decreases |nodes|
  {
    if |nodes| > 0 {
      CleanEmpty(nodes[1..]);
      if |Clean(nodes)| == 0 {
        forall i | 1 <= i < |nodes|
          ensures !Kept(nodes[i])
        {
          assert nodes[i] == nodes[1..][i - 1];
        }
      }
    }
  }

  /** Every detail is free of ':' and '-'. */
  lemma {:induction false} CleanUnpunctuated(nodes: seq<string>)
    ensures forall s :: s in Clean(nodes) ==> Unpunctuated(s)
    decreases |nodes|
  {
    if |nodes| > 0 {
      CleanUnpunctuated(nodes[1..]);
    }
  }

  /** One step of the comprehension. */
  lemma CleanCons(node: string, rest: seq<string>)
    ensures Clean([node] + rest) == CleanOne(node) + Clean(rest)
  {
    var nodes := [node] + rest;
    assert nodes[0] == node;
    assert nodes[1..] == rest;
  }

  /** Clean works node by node: it keeps the order of the nodes it keeps. */
  lemma {:induction false} CleanAppend(a: seq<string>, b: seq<string>)
    ensures Clean(a + b) == Clean(a) + Clean(b)
    decreases |a|
  {
    if |a| == 0 {
      assert a + b == b;
    } else {
      assert (a + b)[0] == a[0];
      assert (a + b)[1..] == a[1..] + b;
      CleanAppend(a[1..], b);
      assert Clean(a + b) == CleanOne(a[0]) + (Clean(a[1..]) + Clean(b));
    }
  }

  /** Clean of a single node: kept and cleaned, or dropped. */
  lemma CleanSingle(node: string)
    ensures Clean([node]) == if Kept(node) then [CleanNode(node)] else []
  {
    assert [node][1..] == [];
  }

  function Classify(nodes: Nodes): Classification {
    Classification(Clean(nodes.notification), Clean(nodes.success))
  }

  /** The test at line 298. */
  predicate Succeeded(c: Classification) {
    |c.details| > 0
  }

  /** Success exactly when some success node is non-blank after str.strip(). */
  lemma SuccessIffSomeText(nodes: Nodes)
    ensures Succeeded(Classify(nodes)) <==>
      exists i :: 0 <= i < |nodes.success| && |Strip(nodes.success[i])| > 0
  {
    CleanEmpty(nodes.success);
    forall i | 0 <= i < |nodes.success|
      ensures Kept(nodes.success[i]) <==> |Strip(nodes.success[i])| > 0
    {
      KeptIsStripTest(nodes.success[i]);
    }
  }

  /** A node holding only "-" survives the filter, cleans to "", and still counts. */
  lemma DashOnlyCounts()
    ensures Clean(["-"]) == [""]
    ensures Succeeded(Classify(Nodes([], ["-"])))
  {
    VisibleAsciiNotSpace('-');
    assert "-"[0] == '-';
    assert !All("-", UnicodeSpace);
    assert Remove("-", Punctuation) == "";
    StripUnpadded("");
    CleanSingle("-");
  }

  /** Removing the punctuation from `key:rest` joins the two sides. */
  lemma RemoveColon(key: string, rest: string)
    requires Unpunctuated(key) && Unpunctuated(rest)
    ensures Remove(key + ":" + rest, Punctuation) == key + rest
  {
    assert key + ":" + rest == key + (":" + rest);
    RemoveAppend(key, ":" + rest, Punctuation);
    RemoveAppend(":", rest, Punctuation);
    RemoveNothing(key, Punctuation);
    RemoveNothing(rest, Punctuation);
    assert Remove(":", Punctuation) == [];
    assert [] + rest == rest;
  }

  /** A detail such as `Trip logged: OK` loses its colon and nothing else:
      with key "Trip logged" and rest " OK" this is the text "Trip logged OK". */
  lemma ColonDropped(key: string, rest: string)
    requires Unpunctuated(key) && Unpunctuated(rest)
    requires |key| > 0 && !IsSpace(key[0])
    requires |rest| > 0 && !IsSpace(rest[|rest| - 1])
    ensures Clean([key + ":" + rest]) == [key + rest]
  {
    var node := key + ":" + rest;
    var cut := key + rest;
    assert Remove(node, Punctuation) == cut by { RemoveColon(key, rest); }
    assert Kept(node) by { assert node[0] == key[0]; }
    assert Strip(cut) == cut by {
      assert cut[0] == key[0] && cut[|cut| - 1] == rest[|rest| - 1];
      StripUnpadded(cut);
    }
    CleanSingle(node);
  }
}
