/** The fragment recovery of the contacts page (pull_salesforce_contacts.py):
    the response text is cut into the substrings that the regular expression
    `\{[^}]+\}` finds, scanning left to right, and every fragment is then
    parsed on its own; fragments that do not parse are reported and skipped. */
module ContactFragments {
  import opened Wrappers
  import opened PyText

  /** A match of the pattern: `{`, then one or more characters other than
      `}`, then `}`. Interior `{` characters are allowed. */
  ghost predicate IsFragment(f: string)
  {
    && |f| >= 3
    && f[0] == '{'
    && f[|f| - 1] == '}'
    && forall k :: 0 < k < |f| - 1 ==> f[k] != '}'
  }

  /** The first position at or after `i` that holds `}`, or `|s|`. */
  function NextClose(s: string, i: nat): (j: nat)
    requires i <= |s|
    ensures i <= j <= |s|
    ensures j < |s| ==> s[j] == '}'
    ensures forall k :: i <= k < j ==> s[k] != '}'
    decreases |s| - i
  {
    if i == |s| || s[i] == '}' then i else NextClose(s, i + 1)
  }

  /** The pattern tried at position `p`: the end (exclusive) of the match
      that starts there, if any. */
  function MatchAt(s: string, p: nat): (r: Option<nat>)
    requires p <= |s|
    ensures r.Some? ==> p + 3 <= r.value <= |s|
  {
    if p < |s| && s[p] == '{' then
      var j := NextClose(s, p + 1);
      if j < |s| && j > p + 1 then Some(j + 1) else None
    else
      None
  }

  /** The regular expression tried at `p` matches `s[p..e]` exactly when
      that substring is a fragment: the greedy `[^}]+` can only stop at the
      first `}`, so at most one fragment starts at any position. */
  lemma MatchAtExact(s: string, p: nat)
    requires p <= |s|
    ensures forall e :: p <= e <= |s| ==> (IsFragment(s[p..e]) <==> MatchAt(s, p) == Some(e))
  {
    if p < |s| && s[p] == '{' {
      var j := NextClose(s, p + 1);
      forall e | p <= e <= |s| && IsFragment(s[p..e]) ensures e == j + 1 {
        assert s[e - 1] == s[p..e][e - 1 - p];
        assert forall k :: p < k < e - 1 ==> s[k] != '}' by {
          forall k | p < k < e - 1 ensures s[k] != '}' { assert s[k] == s[p..e][k - p]; }
        }
      }
      if j < |s| && j > p + 1 {
        var f := s[p..j + 1];
        forall k | 0 < k < |f| - 1 ensures f[k] != '}' {
          assert f[k] == s[p + k];
        }
      }
    } else {
      forall e | p <= e <= |s| && |s[p..e]| > 0 ensures s[p..e][0] != '{' {
        assert s[p..e][0] == s[p];
      }
    }
  }

  /** The position range `[start, end)` of one match. */
  datatype Span = Span(start: nat, end: nat)

  /** The spans are ordered left to right, none overlapping the next, and
      all lie within `[p, |s|]`. */
  ghost predicate OrderedWithin(spans: seq<Span>, p: nat, n: nat)
  {
    && (forall i :: 0 <= i < |spans| ==> p <= spans[i].start < spans[i].end <= n)
    && (forall i :: 0 <= i < |spans| - 1 ==> spans[i].end <= spans[i + 1].start)
  }

  /** Position `q` lies inside one of the spans. */
  ghost predicate Covered(spans: seq<Span>, q: int)
  {
    exists i :: 0 <= i < |spans| && spans[i].start <= q < spans[i].end
  }

  /** `re.findall` from position `p`: try the pattern at `p`; on a match,
      record it and go on after it, otherwise go on at `p + 1`. */
  function Scan(s: string, p: nat): (spans: seq<Span>)
    requires p <= |s|
    ensures 3 * |spans| <= |s| - p
    decreases |s| - p
  {
    if p == |s| then []
    else
      match MatchAt(s, p)
      case Some(e) =>
        [Span(p, e)] + Scan(s, e)
      case None => Scan(s, p + 1)
  }

  /** Every span the scan finds is a fragment of `s`, and the spans come in
      increasing, non-overlapping order. */
  lemma {:induction false} ScanSound(s: string, p: nat)
    requires p <= |s|
    ensures OrderedWithin(Scan(s, p), p, |s|)
    ensures forall i :: 0 <= i < |Scan(s, p)| ==> IsFragment(s[Scan(s, p)[i].start..Scan(s, p)[i].end])
    decreases |s| - p
  {
    if p < |s| {
      MatchAtExact(s, p);
      match MatchAt(s, p)
      case Some(e) =>
        ScanSound(s, e);
        var rest := Scan(s, e);
        var spans := [Span(p, e)] + rest;
        assert Scan(s, p) == spans;
        assert spans[0] == Span(p, e);
        assert forall i :: 1 <= i < |spans| ==> spans[i] == rest[i - 1];
      case None =>
        ScanSound(s, p + 1);
        assert Scan(s, p) == Scan(s, p + 1);
    }
  }

  /** No position from `from` on outside `spans` starts a fragment. */
  ghost predicate NoStartOutside(s: string, from: nat, spans: seq<Span>)
  {
    forall q, e :: from <= q < e <= |s| && !Covered(spans, q) ==> !IsFragment(s[q..e])
  }

  /** The scan is leftmost-first and takes every match it can: no position
      from `p` on that lies outside the spans found starts a fragment. So
      what lies between two spans, or before the first, or after the last,
      holds no fragment start. */
  lemma {:induction false} ScanMaximal(s: string, p: nat)
    requires p <= |s|
    ensures NoStartOutside(s, p, Scan(s, p))
    decreases |s| - p
  {
    if p < |s| {
      match MatchAt(s, p)
      case Some(e) =>
        ScanMaximal(s, e);
        MaximalAfterMatch(s, p, e);
      case None =>
        ScanMaximal(s, p + 1);
        MaximalAfterMiss(s, p);
    }
  }

  lemma MaximalAfterMatch(s: string, p: nat, e: nat)
    requires p < e <= |s| && MatchAt(s, p) == Some(e)
    requires NoStartOutside(s, e, Scan(s, e))
    ensures NoStartOutside(s, p, [Span(p, e)] + Scan(s, e))
  {
    var rest := Scan(s, e);
    var spans := [Span(p, e)] + rest;
    forall q, e' | p <= q < e' <= |s| && !Covered(spans, q) ensures !IsFragment(s[q..e']) {
      assert spans[0] == Span(p, e);
      assert forall i :: 0 <= i < |rest| ==> spans[i + 1] == rest[i];
      assert q >= e;
      assert !Covered(rest, q);
    }
  }

  lemma MaximalAfterMiss(s: string, p: nat)
    requires p < |s| && MatchAt(s, p) == None
    requires NoStartOutside(s, p + 1, Scan(s, p + 1))
    ensures NoStartOutside(s, p, Scan(s, p + 1))
  {
    forall q, e' | p <= q < e' <= |s| && !Covered(Scan(s, p + 1), q) ensures !IsFragment(s[q..e']) {
      if q == p {
        MatchAtExact(s, p);
      }
    }
  }

  /** `re.findall(r'\{[^}]+\}', text)`: the text of every span. */
  function Fragments(text: string): (fragments: seq<string>)
    ensures 3 * |fragments| <= |text|
    ensures forall i :: 0 <= i < |fragments| ==> IsFragment(fragments[i])
  {
    var spans := Scan(text, 0);
    ScanSound(text, 0);
    seq(|spans|, i requires 0 <= i < |spans| => text[spans[i].start..spans[i].end])
  }

  /** Every piece `findall` returns is a fragment: it opens with `{`, closes
      with `}`, has no other `}` and has at least three characters. */
  lemma FragmentsAreFragments(text: string)
    ensures |Fragments(text)| == |Scan(text, 0)|
    ensures forall i :: 0 <= i < |Fragments(text)| ==> IsFragment(Fragments(text)[i])
    ensures OrderedWithin(Scan(text, 0), 0, |text|)
    ensures forall i :: 0 <= i < |Fragments(text)| ==>
              Fragments(text)[i] == text[Scan(text, 0)[i].start..Scan(text, 0)[i].end]
  {
    ScanSound(text, 0);
  }

  /** A fragment begins with `{` and ends with `}`, so `entry.strip()`
      leaves it as it is. */
  lemma StripFragment(f: string)
    requires IsFragment(f)
    ensures Strip(f) == f
  {
    assert !IsSpace('{') && !IsSpace('}');
    StripTrimmed(f);
  }

  /** An opening brace directly followed by a closing one starts nothing. */
  lemma EmptyBracesStartNothing(s: string, p: nat)
    requires p + 2 <= |s| && s[p] == '{' && s[p + 1] == '}'
    ensures MatchAt(s, p) == None
    ensures forall e :: p <= e <= |s| ==> !IsFragment(s[p..e])
  {
    assert NextClose(s, p + 1) == p + 1;
    MatchAtExact(s, p);
  }

  /** Two objects with text between them. */
  const Sample := "{\"a\":1}garbage{\"b\":2}"

  lemma SampleSecondObject()
    ensures Scan(Sample, 7) == [Span(14, 21)]
  {
    var s := Sample;
    assert s[14] == '{' && s[20] == '}';
    assert NextClose(s, 18) == 20;
    assert NextClose(s, 15) == 20;
    assert MatchAt(s, 14) == Some(21);
    assert Scan(s, 21) == [];
    assert Scan(s, 14) == [Span(14, 21)];
    assert Scan(s, 11) == [Span(14, 21)];
    assert Scan(s, 9) == [Span(14, 21)];
    assert Scan(s, 7) == [Span(14, 21)];
  }

  /** The text between the two objects is skipped and both objects are found. */
  lemma TwoObjectsAroundGarbage()
    ensures Fragments(Sample) == ["{\"a\":1}", "{\"b\":2}"]
  {
    var s := Sample;
    assert NextClose(s, 1) == 6;
    assert MatchAt(s, 0) == Some(7);
    SampleSecondObject();
    assert Scan(s, 0) == [Span(0, 7), Span(14, 21)];
    SampleParts();
  }

  /** The two objects of the sample, by position. */
  lemma SampleParts()
    ensures Sample[0..7] == "{\"a\":1}" && Sample[14..21] == "{\"b\":2}"
  {
  }

  /** The pattern does not nest: an object holding an object is cut at the
      inner object's closing brace, and the outer closing brace is dropped. */
  lemma NestedObjectMisSplit()
    ensures Fragments("{\"a\":{\"b\":1}}") == ["{\"a\":{\"b\":1}"]
  {
    var s := "{\"a\":{\"b\":1}}";
    assert NextClose(s, 1) == 11;
    assert MatchAt(s, 0) == Some(12);
    assert Scan(s, 13) == [];
    assert Scan(s, 12) == [];
    assert s[12] == '}';
    assert Scan(s, 0) == [Span(0, 12)];
    assert s[0..12] == "{\"a\":{\"b\":1}";
  }

  // ---------------------------------------------------------------------
  // Parsing the fragments
  // ---------------------------------------------------------------------

  /** The JSON decoder's answer for one entry, which the loop strips first. */
  function ParseEntry<J>(entry: string, parse: string -> Option<J>): (r: Option<J>)
    ensures Trimmed(entry) ==> r == parse(entry)
  {
    var r := parse(Strip(entry));
    assert Trimmed(entry) ==> r == parse(entry) by {
      if Trimmed(entry) { StripTrimmed(entry); }
    }
    r
  }

  /** The items the parse loop keeps: the parse results of the entries that
      parse, in entry order. */
  function Recovered<J>(entries: seq<string>, parse: string -> Option<J>): (items: seq<J>)
    ensures |items| <= |entries|
    ensures forall i :: 0 <= i < |items| ==>
              exists k :: 0 <= k < |entries| && ParseEntry(entries[k], parse) == Some(items[i])
    decreases |entries|
  {
    if entries == [] then []
    else
      var k := |entries| - 1;
      var prev := Recovered(entries[..k], parse);
      assert forall j :: 0 <= j < k ==> entries[..k][j] == entries[j];
      match ParseEntry(entries[k], parse)
      case Some(item) => prev + [item]
      case None => prev
  }

  /** The entries the parse loop reports as unparsable, in entry order. */
  function Rejected<J>(entries: seq<string>, parse: string -> Option<J>): (reported: seq<string>)
    ensures |reported| <= |entries|
    ensures forall i :: 0 <= i < |reported| ==>
              exists k :: 0 <= k < |entries| && ParseEntry(entries[k], parse).None?
                          && reported[i] == Strip(entries[k])
    decreases |entries|
  {
    if entries == [] then []
    else
      var k := |entries| - 1;
      var prev := Rejected(entries[..k], parse);
      assert forall j :: 0 <= j < k ==> entries[..k][j] == entries[j];
      match ParseEntry(entries[k], parse)
      case Some(_) => prev
      case None => prev + [Strip(entries[k])]
  }

  /** The loop over the entries: each stripped entry is parsed; an item is
      appended when it parses, and the entry is reported otherwise. */
  method ParseEntries<J>(entries: seq<string>, parse: string -> Option<J>)
    returns (items: seq<J>, reported: seq<string>)
    ensures items == Recovered(entries, parse)
    ensures reported == Rejected(entries, parse)
  {
    items, reported := [], [];
    for k := 0 to |entries|
      invariant items == Recovered(entries[..k], parse)
      invariant reported == Rejected(entries[..k], parse)
    {
      assert entries[..k + 1][..k] == entries[..k];
      var entry := Strip(entries[k]);
      var item := parse(entry);
      if item.Some? {
        items := items + [item.value];
      } else {
        reported := reported + [entry];
      }
    }
    assert entries[..|entries|] == entries;
  }

  /** Every entry is either kept or reported, never both and never
      dropped: so there are at most as many items as entries. */
  lemma {:induction false} EveryEntryAccounted<J>(entries: seq<string>, parse: string -> Option<J>)
    ensures |Recovered(entries, parse)| + |Rejected(entries, parse)| == |entries|
    ensures |Recovered(entries, parse)| <= |entries|
    decreases |entries|
  {
    if entries != [] {
      EveryEntryAccounted(entries[..|entries| - 1], parse);
    }
  }

  /** The loop processes entries one after another: the items of `a + b` are
      the items of `a` followed by those of `b`, so a failure affects only
      its own entry. */
  lemma {:induction false} RecoveredAppend<J>(a: seq<string>, b: seq<string>, parse: string -> Option<J>)
    ensures Recovered(a + b, parse) == Recovered(a, parse) + Recovered(b, parse)
    decreases |b|
  {
    if b == [] {
      assert a + b == a;
    } else {
      var k := |b| - 1;
      assert (a + b)[..|a + b| - 1] == a + b[..k];
      assert (a + b)[|a + b| - 1] == b[k];
      RecoveredAppend(a, b[..k], parse);
    }
  }

  /** An entry that does not parse contributes nothing and does not stop
      the entries after it. */
  lemma SkipFailure<J>(a: seq<string>, bad: string, b: seq<string>, parse: string -> Option<J>)
    requires ParseEntry(bad, parse).None?
    ensures Recovered(a + [bad] + b, parse) == Recovered(a, parse) + Recovered(b, parse)
  {
    RecoveredAppend(a + [bad], b, parse);
    RecoveredAppend(a, [bad], parse);
    assert [bad][..0] == [];
  }

  /** The part of the contacts handler between the response text and the
      table: find the fragments, then parse them. */
  method RecoverRecords<J>(responseText: string, parse: string -> Option<J>)
    returns (items: seq<J>, reported: seq<string>)
    ensures items == Recovered(Fragments(responseText), parse)
    ensures reported == Rejected(Fragments(responseText), parse)
    ensures |items| <= |Fragments(responseText)|
  {
    var entries := Fragments(responseText);
    items, reported := ParseEntries(entries, parse);
    EveryEntryAccounted(entries, parse);
  }

  /** Since fragments are left unchanged by stripping, what is parsed is
      the fragment itself. */
  lemma FragmentsParsedAsFound<J>(text: string, parse: string -> Option<J>)
    ensures forall i :: 0 <= i < |Fragments(text)| ==>
              ParseEntry(Fragments(text)[i], parse) == parse(Fragments(text)[i])
  {
    var fs := Fragments(text);
    FragmentsAreFragments(text);
    forall i | 0 <= i < |fs| ensures ParseEntry(fs[i], parse) == parse(fs[i]) {
      StripFragment(fs[i]);
    }
  }
}
