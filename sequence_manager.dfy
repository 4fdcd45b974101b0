/** The pure parts of SequenceManager: the name made from a sequence label,
    the escaping of a path for a git glob pattern, the search of the list of
    sequences on disk by unique id, and the retry loop that draws a fresh
    unique id.  The file system and git are not part of this model. */
module SequenceManagers {
  import opened Wrappers
  import opened Text
  import SequenceNames
  import UniqueIds

  // ----------------------------------------------------------------------
  // make_sequence_name_from_label

  /** The byte that stands for `c` in a name made from a label: `c` itself if
      it is a valid name character, '_' otherwise. */
  function NameChar(c: Byte): (r: Byte)
    ensures SequenceNames.IsValidChar(r)
  {
    if SequenceNames.IsValidChar(c) then c else '_'
  }

  /** The label cut to the longest length a name may have. */
  function Truncated(labelText: Bytes): (r: Bytes)
    ensures |r| <= SequenceNames.MaxLength && r <= labelText
    ensures |labelText| <= SequenceNames.MaxLength ==> r == labelText
  {
    if |labelText| > SequenceNames.MaxLength then labelText[..SequenceNames.MaxLength] else labelText
  }

  /** The name made from a label: the truncated label with every byte
      outside the name character set replaced by '_'. */
  function Sanitized(labelText: Bytes): (r: Bytes)
  {
    var cut := Truncated(labelText);
    seq(|cut|, i requires 0 <= i < |cut| => NameChar(cut[i]))
  }

  /** `make_sequence_name_from_label`: copies the truncated label byte by
      byte, replacing invalid bytes, and builds a SequenceName from it. */
  method MakeSequenceNameFromLabel(labelText: Bytes) returns (r: Result<SequenceNames.SequenceName>)
    ensures r == SequenceNames.Create(Sanitized(labelText))
  {
    var cut := labelText;
    if |cut| > SequenceNames.MaxLength {
      cut := cut[..SequenceNames.MaxLength];
    }
    var name: Bytes := [];
    for i := 0 to |cut|
      invariant |name| == i
      invariant forall k :: 0 <= k < i ==> name[k] == NameChar(cut[k])
    {
      if SequenceNames.IsValidChar(cut[i]) {
        name := name + [cut[i]];
      } else {
        name := name + ['_'];
      }
    }
    assert name == Sanitized(labelText);
    r := SequenceNames.Create(name);
  }

  /** The name keeps the first 64 bytes of the label: a valid byte stays in
      its place and every other byte becomes '_'. */
  lemma SanitizedShape(labelText: Bytes)
    ensures |Sanitized(labelText)| == if |labelText| < SequenceNames.MaxLength then |labelText| else SequenceNames.MaxLength
    ensures forall i :: 0 <= i < |Sanitized(labelText)| && SequenceNames.IsValidChar(labelText[i]) ==> Sanitized(labelText)[i] == labelText[i]
    ensures forall i :: 0 <= i < |Sanitized(labelText)| && !SequenceNames.IsValidChar(labelText[i]) ==> Sanitized(labelText)[i] == '_'
  {
    var cut := Truncated(labelText);
    assert forall i :: 0 <= i < |cut| ==> cut[i] == labelText[i];
  }

  /** With the validity check as written the name is always accepted: it is
      short enough and uses only valid characters, so the function never
      throws. */
  lemma SanitizedPassesCheckAsWritten(labelText: Bytes)
    ensures SequenceNames.CheckValidityAsWritten(Sanitized(labelText)).None?
  {
    var s := Sanitized(labelText);
    assert SequenceNames.AllValidChars(s) by {
      forall i | 0 <= i < |s| ensures SequenceNames.IsValidChar(s[i]) {
        assert s[i] == NameChar(Truncated(labelText)[i]);
      }
    }
  }

  /** With the documented rule, which also forbids a leading period, the name
      is accepted exactly when the label does not start with '.' ('.' is a
      valid character and so is copied). */
  lemma SanitizedValidUnlessLeadingPeriod(labelText: Bytes)
    ensures SequenceNames.Create(Sanitized(labelText)).Success? <==> (labelText == [] || labelText[0] != '.')
  {
    SanitizedPassesCheckAsWritten(labelText);
    var s := Sanitized(labelText);
    if labelText != [] {
      assert s[0] == NameChar(labelText[0]);
      assert s[0] == '.' <==> labelText[0] == '.';
    }
  }

  /** A name that is already valid is its own sanitised form. */
  lemma SanitizedKeepsValidName(name: Bytes)
    requires SequenceNames.IsValid(name)
    ensures Sanitized(name) == name
  {
  }

  /** Sanitising twice changes nothing more. */
  lemma SanitizedIdempotent(labelText: Bytes)
    ensures Sanitized(Sanitized(labelText)) == Sanitized(labelText)
  {
    var s := Sanitized(labelText);
    SanitizedPassesCheckAsWritten(labelText);
    assert |s| <= SequenceNames.MaxLength;
    assert forall i :: 0 <= i < |s| ==> NameChar(s[i]) == s[i];
  }

  // ----------------------------------------------------------------------
  // escape_glob

  /** The bytes with a meaning in a glob pattern. */
  predicate IsGlobSpecial(c: Byte)
  {
    c == '*' || c == '?' || c == '\\' || c == '[' || c == ']'
  }

  /** How one byte is written in the pattern: a special byte behind a
      backslash, every other byte unchanged. */
  function EscapeGlobChar(c: Byte): (r: Bytes)
  {
    if IsGlobSpecial(c) then ['\\', c] else [c]
  }

  /** The path with every special byte escaped. */
  function GlobEscaped(path: Bytes): (r: Bytes)
  {
    if path == [] then [] else EscapeGlobChar(path[0]) + GlobEscaped(path[1..])
  }

  /** The pattern `escape_glob` returns: the escaped path, followed by a
      slash and a star (everything inside the directory) unless libgit2 is
      too old to match a directory that way. */
  function GlobPattern(path: Bytes, ancientLibgit2: bool): (r: Bytes)
  {
    GlobEscaped(path) + (if ancientLibgit2 then [] else "/*")
  }

  lemma {:induction false} GlobEscapedAppend(s: Bytes, c: Byte)
    ensures GlobEscaped(s + [c]) == GlobEscaped(s) + EscapeGlobChar(c)
    decreases |s|
  {
    if s == [] {
      assert [] + [c] == [c];
      assert GlobEscaped([c]) == EscapeGlobChar(c) + GlobEscaped([]);
    } else {
      assert (s + [c])[1..] == s[1..] + [c];
      GlobEscapedAppend(s[1..], c);
      assert (s + [c])[0] == s[0];
    }
  }

  /** `escape_glob`: appends each byte of the path in its escaped form, then
      the directory wildcard (not with an ancient libgit2, a compile-time
      switch in the source and a parameter here). */
  method EscapeGlob(path: Bytes, ancientLibgit2: bool) returns (escaped: Bytes)
    ensures escaped == GlobPattern(path, ancientLibgit2)
  {
    escaped := [];
    for i := 0 to |path|
      invariant escaped == GlobEscaped(path[..i])
    {
      var c := path[i];
      match c {
        case '*' => escaped := escaped + "\\*";
        case '?' => escaped := escaped + "\\?";
        case '\\' => escaped := escaped + "\\\\";
        case '[' => escaped := escaped + "\\[";
        case ']' => escaped := escaped + "\\]";
        case _ => escaped := escaped + [c];
      }
      assert path[..i + 1] == path[..i] + [c];
      GlobEscapedAppend(path[..i], c);
    }
    assert path[..|path|] == path;
    if !ancientLibgit2 {
      escaped := escaped + "/*";
    }
  }

  /** A pattern that matches its bytes literally: every special byte is the
      second byte of a backslash pair. */
  predicate Literal(p: Bytes)
    decreases |p|
  {
    if p == [] then true
    else if p[0] == '\\' then |p| >= 2 && IsGlobSpecial(p[1]) && Literal(p[2..])
    else !IsGlobSpecial(p[0]) && Literal(p[1..])
  }

  /** The path a literal pattern matches: the pattern with each escaping
      backslash dropped. */
  function Unescaped(p: Bytes): (r: Bytes)
    decreases |p|
  {
    if p == [] then []
    else if p[0] == '\\' && |p| >= 2 then [p[1]] + Unescaped(p[2..])
    else [p[0]] + Unescaped(p[1..])
  }

  /** The escaped path is a literal pattern, and the path it matches is the
      original one. */
  lemma {:induction false} GlobEscapedLiteral(path: Bytes)
    ensures Literal(GlobEscaped(path))
    ensures Unescaped(GlobEscaped(path)) == path
    decreases |path|
  {
    if path != [] {
      var c := path[0];
      var rest := GlobEscaped(path[1..]);
      GlobEscapedLiteral(path[1..]);
      if IsGlobSpecial(c) {
        var e := ['\\', c] + rest;
        assert GlobEscaped(path) == e;
        assert e[2..] == rest;
        assert Unescaped(e) == [c] + Unescaped(rest);
      } else {
        var e := [c] + rest;
        assert GlobEscaped(path) == e;
        assert e[1..] == rest;
        assert Unescaped(e) == [c] + Unescaped(rest);
      }
      assert [c] + path[1..] == path;
    }
  }

  /** Distinct paths give distinct patterns. */
  lemma GlobPatternInjective(a: Bytes, b: Bytes, ancientLibgit2: bool)
    ensures GlobPattern(a, ancientLibgit2) == GlobPattern(b, ancientLibgit2) <==> a == b
  {
    if GlobPattern(a, ancientLibgit2) == GlobPattern(b, ancientLibgit2) {
      var tail: Bytes := if ancientLibgit2 then [] else "/*";
      assert GlobEscaped(a) == GlobPattern(a, ancientLibgit2)[..|GlobPattern(a, ancientLibgit2)| - |tail|];
      assert GlobEscaped(b) == GlobPattern(b, ancientLibgit2)[..|GlobPattern(b, ancientLibgit2)| - |tail|];
      GlobEscapedLiteral(a);
      GlobEscapedLiteral(b);
    }
  }

  // ----------------------------------------------------------------------
  // The list of sequences on disk

  /** `SequenceOnDisk`: where a sequence is stored, its name and its id. */
  datatype SequenceOnDisk = SequenceOnDisk(path: Bytes, name: SequenceNames.SequenceName, uniqueId: UniqueIds.UniqueId)

  /** `contains_id`: some sequence of the list has the id. */
  function ContainsId(sequences: seq<SequenceOnDisk>, uid: UniqueIds.UniqueId): (r: bool)
    ensures r <==> exists i :: 0 <= i < |sequences| && sequences[i].uniqueId == uid
  {
    if sequences == [] then false
    else sequences[0].uniqueId == uid || ContainsId(sequences[1..], uid)
  }

  /** The position of the first sequence with the id, if any (the
      `find_if` of `find_sequence_on_disk`). */
  function FirstWithId(sequences: seq<SequenceOnDisk>, uid: UniqueIds.UniqueId): (r: Option<nat>)
    ensures r.None? <==> !ContainsId(sequences, uid)
    ensures r.Some? ==> r.value < |sequences| && sequences[r.value].uniqueId == uid
    ensures r.Some? ==> forall j :: 0 <= j < r.value ==> sequences[j].uniqueId != uid
  {
    if sequences == [] then None
    else if sequences[0].uniqueId == uid then Some(0)
    else match FirstWithId(sequences[1..], uid)
      case None => None
      case Some(k) => Some(k + 1)
  }

  const NotFoundPrefix: Bytes := "Sequence not found: Unknown unique ID "

  /** `find_sequence_on_disk`: the first sequence of the list with the id, or
      the error naming the id in hexadecimal. */
  function FindSequenceOnDisk(uid: UniqueIds.UniqueId, sequences: seq<SequenceOnDisk>): (r: Result<SequenceOnDisk>)
    ensures r.Success? <==> ContainsId(sequences, uid)
    ensures r.Success? ==> r.value.uniqueId == uid
    ensures r.Success? ==> exists i :: 0 <= i < |sequences| && sequences[i] == r.value
                                   && forall j :: 0 <= j < i ==> sequences[j].uniqueId != uid
    ensures r.Failure? ==> r.error == NotFoundPrefix + UniqueIds.ToString(uid)
  {
    match FirstWithId(sequences, uid)
    case None => Failure(NotFoundPrefix + UniqueIds.ToString(uid))
    case Some(i) => Success(sequences[i])
  }

  // ----------------------------------------------------------------------
  // create_unique_id

  /** The number of random ids tried before giving up. */
  const MaxAttempts: nat := 10000
  const NoUniqueIdMessage: Bytes := "Unable to find a unique ID"

  /** `create_unique_id`: draws up to 10000 random ids and returns the first
      one no sequence of the list has.  The random generator is the
      parameter `draw`, whose value for `i` is the id drawn in attempt `i`. */
  method CreateUniqueId(sequences: seq<SequenceOnDisk>, draw: nat -> UniqueIds.UniqueId)
      returns (r: Result<UniqueIds.UniqueId>)
    ensures r.Success? ==> !ContainsId(sequences, r.value)
    ensures r.Success? ==> exists i :: 0 <= i < MaxAttempts && draw(i) == r.value
                                   && forall j :: 0 <= j < i ==> ContainsId(sequences, draw(j))
    ensures r.Failure? <==> forall i :: 0 <= i < MaxAttempts ==> ContainsId(sequences, draw(i))
    ensures r.Failure? ==> r.error == NoUniqueIdMessage
  {
    var i := 0;
    while i != MaxAttempts
      invariant 0 <= i <= MaxAttempts
      invariant forall j :: 0 <= j < i ==> ContainsId(sequences, draw(j))
    {
      var uid := draw(i);
      if !ContainsId(sequences, uid) {
        return Success(uid);
      }
      i := i + 1;
    }
    return Failure(NoUniqueIdMessage);
  }
}
