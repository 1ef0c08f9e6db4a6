/**
 * The order in which src/main.py lines 304 and 311 write the configuration
 * back: `sorted(config.items())`, that is, by key under Python's string
 * comparison. Keys of a dictionary are distinct, so the values are never
 * compared.
 */
module ConfigWrite {
  import opened Config

  type Entry = (string, Json)

  /** Python's `<` on str: the first differing code point decides, and a proper
      prefix comes first. */
  predicate Less(a: string, b: string) {
    |b| > 0 && (|a| == 0 || a[0] < b[0] || (a[0] == b[0] && Less(a[1..], b[1..])))
  }

  lemma {:induction false} LessIrreflexive(a: string)
    ensures !Less(a, a)
  {
    if |a| > 0 {
      LessIrreflexive(a[1..]);
    }
  }

  lemma {:induction false} LessTransitive(a: string, b: string, c: string)
    requires Less(a, b) && Less(b, c)
    ensures Less(a, c)
  {
    if |a| > 0 && a[0] == b[0] && b[0] == c[0] {
      LessTransitive(a[1..], b[1..], c[1..]);
    }
  }

  /** Two different keys are always ordered one way or the other. */
  lemma {:induction false} LessTotal(a: string, b: string)
    requires a != b
    ensures Less(a, b) || Less(b, a)
  {
    if |a| > 0 && |b| > 0 && a[0] == b[0] {
      assert a == [a[0]] + a[1..] && b == [b[0]] + b[1..];
      LessTotal(a[1..], b[1..]);
    }
  }

  /** Strictly increasing keys, hence no key twice. */
  predicate Sorted(es: seq<Entry>) {
    forall i, j :: 0 <= i < j < |es| ==> Less(es[i].0, es[j].0)
  }

  function Insert(e: Entry, es: seq<Entry>): (r: seq<Entry>)
    requires Sorted(es)
    requires forall i :: 0 <= i < |es| ==> es[i].0 != e.0
    ensures Sorted(r)
    ensures |r| == |es| + 1
    ensures forall x :: x in r <==> x == e || x in es
  {
    if |es| == 0 then [e]
    else if Less(e.0, es[0].0) then
      assert forall j :: 0 <= j < |es| ==> Less(e.0, es[j].0) by {
        forall j | 0 < j < |es| {
          LessTransitive(e.0, es[0].0, es[j].0);
        }
      }
      [e] + es
    else
      LessTotal(e.0, es[0].0);
      var tail := Insert(e, es[1..]);
      assert forall j :: 0 <= j < |tail| ==> Less(es[0].0, tail[j].0) by {
        forall j | 0 <= j < |tail|
          ensures Less(es[0].0, tail[j].0)
        {
          assert tail[j] in tail;
          if tail[j] != e {
            var k :| 1 <= k < |es| && es[k] == tail[j];
          }
        }
      }
      [es[0]] + tail
  }

  /** The entries of the configuration in the order they are written: sorted by
      key, one per key, each with the key's value. */
  method SortedEntries(m: map<string, Json>) returns (out: seq<Entry>)
    ensures Sorted(out)
    ensures |out| == |m|
    ensures forall e :: e in out <==> e.0 in m && m[e.0] == e.1
  {
    out := [];
    var rest := m.Keys;
    while rest != {}
      invariant rest <= m.Keys
      invariant Sorted(out)
      invariant |out| == |m.Keys - rest|
      invariant forall e :: e in out <==> e.0 in m.Keys - rest && m[e.0] == e.1
      decreases |rest|
    {
      var k :| k in rest;
      forall i | 0 <= i < |out|
        ensures out[i].0 != k
      {
        assert out[i] in out;
      }
      out := Insert((k, m[k]), out);
      assert m.Keys - (rest - {k}) == (m.Keys - rest) + {k};
      rest := rest - {k};
    }
    assert m.Keys - rest == m.Keys;
  }
}
