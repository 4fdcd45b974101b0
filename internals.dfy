/** How the error message of a failed step script is classified: scripts
    that are aborted or that call terminate_sequence() raise an error whose
    message carries abort markers; any other message is an ordinary error. */
module Internals {
  import opened Text

  datatype ErrorCause = TerminatedByScript | Aborted | UncaughtError

  /** The UTF-8 bytes of U+1F6D1 "ABORT" U+1F6D1. */
  const StopSign: Bytes := ['\U{F0}', '\U{9F}', '\U{9B}', '\U{91}']
  const AbortMarker: Bytes := StopSign + "ABORT" + StopSign

  const TerminationMessage: Bytes := "Script called terminate_sequence()"

  /** `remove_abort_markers`: one token means no marker and an ordinary error;
      with one marker the text around it is kept; with more, the text between
      the first two markers.  An empty result means the script terminated the
      sequence itself. */
  function RemoveAbortMarkers(message: Bytes): (r: (Bytes, ErrorCause))
    ensures !Contains(message, AbortMarker) <==> r.1 == UncaughtError
    ensures r.1 == UncaughtError ==> r.0 == message
    ensures r.1 == TerminatedByScript ==> r.0 == TerminationMessage
    ensures r.1 == Aborted ==> r.0 != []
  {
    var tokens := Split(message, AbortMarker);
    if |tokens| == 1 then
      assert !Contains(message, AbortMarker) by { SplitOfMarked(message); }
      (message, UncaughtError)
    else
      assert Contains(message, AbortMarker) by {
        if !Contains(message, AbortMarker) { SplitWithout(message, AbortMarker); }
      }
      var msg := if |tokens| == 2 then tokens[0] + tokens[1] else tokens[1];
      if msg == [] then (TerminationMessage, TerminatedByScript) else (msg, Aborted)
  }

  lemma SplitOfMarked(message: Bytes)
    requires |Split(message, AbortMarker)| == 1
    ensures !Contains(message, AbortMarker)
  {
    var tokens := Split(message, AbortMarker);
    assert Join(tokens, AbortMarker) == tokens[0];
  }

  /** No marker of `a + AbortMarker + rest` starts inside `a`: the marker
      after `a` is the leftmost one of the message. */
  predicate MarkerFirstAfter(a: Bytes, rest: Bytes)
  {
    forall j :: 0 <= j < |a| ==> !OccursAt(a + AbortMarker + rest, AbortMarker, j)
  }

  /** A marker inside `a` would also be a marker of the whole message. */
  lemma FirstMarkerNotInPrefix(a: Bytes, rest: Bytes)
    requires MarkerFirstAfter(a, rest)
    ensures !Contains(a, AbortMarker)
  {
    var s := a + AbortMarker + rest;
    forall j | 0 <= j <= |a| - |AbortMarker| ensures !OccursAt(a, AbortMarker, j) {
      assert s[j..j + |AbortMarker|] == a[j..j + |AbortMarker|];
      assert !OccursAt(s, AbortMarker, j);
    }
  }

  lemma SplitAfterFirst(a: Bytes, rest: Bytes)
    requires MarkerFirstAfter(a, rest)
    ensures Split(a + AbortMarker + rest, AbortMarker) == [a] + Split(rest, AbortMarker)
  {
    FirstMarkerNotInPrefix(a, rest);
    SplitAtFirst(a, AbortMarker, rest);
  }

  /** A message with a single marker: the text on both sides is joined. */
  lemma OneMarker(a: Bytes, b: Bytes)
    requires MarkerFirstAfter(a, b) && !Contains(b, AbortMarker)
    ensures RemoveAbortMarkers(a + AbortMarker + b) ==
              if a + b == [] then (TerminationMessage, TerminatedByScript)
              else (a + b, Aborted)
  {
    SplitAfterFirst(a, b);
    SplitWithout(b, AbortMarker);
  }

  /** A message with at least two markers: only the text between the first
      two counts, whatever follows the second. */
  lemma TwoOrMoreMarkers(a: Bytes, m: Bytes, b: Bytes)
    requires MarkerFirstAfter(a, m + AbortMarker + b) && MarkerFirstAfter(m, b)
    ensures RemoveAbortMarkers(a + AbortMarker + m + AbortMarker + b) ==
              if m == [] then (TerminationMessage, TerminatedByScript)
              else (m, Aborted)
  {
    SplitAfterFirst(m, b);
    assert a + AbortMarker + m + AbortMarker + b == a + AbortMarker + (m + AbortMarker + b);
    SplitAfterFirst(a, m + AbortMarker + b);
  }

  /** The marker starts with the byte 0xF0, so text free of that byte cannot
      hold an occurrence starting inside it. */
  predicate NoLeadByte(s: Bytes)
  {
    forall i :: 0 <= i < |s| ==> s[i] != '\U{F0}'
  }

  lemma NoLeadByteFirst(a: Bytes, rest: Bytes)
    requires NoLeadByte(a)
    ensures MarkerFirstAfter(a, rest)
  {
    var s := a + AbortMarker + rest;
    forall j | 0 <= j < |a| ensures !OccursAt(s, AbortMarker, j) {
      assert j + |AbortMarker| <= |s| ==> s[j..j + |AbortMarker|][0] == s[j];
    }
  }

  lemma ShortHasNoMarker(s: Bytes)
    requires |s| < |AbortMarker|
    ensures !Contains(s, AbortMarker)
  {
  }

  /** The cases the test suite spells out. */
  lemma EmptyMessageExample()
    ensures RemoveAbortMarkers("") == ("", UncaughtError)
  {
    assert !Contains("", AbortMarker);
  }

  lemma TerminationExamples()
    ensures RemoveAbortMarkers(AbortMarker) == (TerminationMessage, TerminatedByScript)
    ensures RemoveAbortMarkers(AbortMarker + AbortMarker) == (TerminationMessage, TerminatedByScript)
  {
    ShortHasNoMarker([]);
    OneMarker([], []);
    assert [] + AbortMarker + [] == AbortMarker;
    TwoOrMoreMarkers([], [], []);
    assert [] + AbortMarker + [] + AbortMarker + [] == AbortMarker + AbortMarker;
  }

  lemma EnclosedExample()
    ensures RemoveAbortMarkers(AbortMarker + "hydrogen" + AbortMarker) == ("hydrogen", Aborted)
  {
    NoLeadByteFirst("hydrogen", []);
    TwoOrMoreMarkers([], "hydrogen", []);
    assert [] + AbortMarker + "hydrogen" + AbortMarker + [] == AbortMarker + "hydrogen" + AbortMarker;
  }

  lemma EmbeddedExample()
    ensures RemoveAbortMarkers("beryll" + AbortMarker + "ium") == ("beryllium", Aborted)
  {
    NoLeadByteFirst("beryll", "ium");
    ShortHasNoMarker("ium");
    OneMarker("beryll", "ium");
    assert "beryll" + "ium" == "beryllium";
  }

  lemma TwoEmbeddedMarkersExample()
    ensures RemoveAbortMarkers("waste of " + AbortMarker + "boron" + AbortMarker + " sucks") == ("boron", Aborted)
  {
    NoLeadByteFirst("waste of ", "boron" + AbortMarker + " sucks");
    NoLeadByteFirst("boron", " sucks");
    TwoOrMoreMarkers("waste of ", "boron", " sucks");
  }

  /** A stop sign outside the marker is ordinary text: it stays in the
      message. */
  lemma StraySignExample()
    ensures RemoveAbortMarkers(StopSign + "x" + AbortMarker + "y") == (StopSign + "xy", Aborted)
  {
    var a := StopSign + "x";
    var s := a + AbortMarker + "y";
    forall j | 0 <= j < |a| ensures !OccursAt(s, AbortMarker, j) {
      if j == 0 {
        assert |s| >= |AbortMarker| && s[0..|AbortMarker|][4] == 'x' != AbortMarker[4];
      } else {
        assert j + |AbortMarker| <= |s| ==> s[j..j + |AbortMarker|][0] == s[j] != '\U{F0}';
      }
    }
    ShortHasNoMarker("y");
    OneMarker(a, "y");
    assert a + "y" == StopSign + "xy";
  }
}
