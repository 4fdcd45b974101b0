/** The index searches of the legacy block interpreter: the forward finders
    that look for the step closing or continuing a block, the backward search
    for the WHILE that belongs to an END, and `has_step`.  Step indices are
    `Sequence::SizeType`, a 16-bit unsigned integer, so the increment and the
    decrement of a search index wrap around modulo 65536. */
module ExecuteSequence {
  import opened Wrappers
  import opened Text
  import opened Steps

  /** 2^16, the number of values of a `Sequence::SizeType`. */
  const SizeLimit: int := 0x1_0000
  /** `Sequence::max_size()`. */
  const MaxSize: nat := 65535

  /** A `Sequence::SizeType` index. */
  type SizeType = x: int | 0 <= x < SizeLimit

  /** `head`, the prefix of every message of this file. */
  const Head: Bytes := "[script] "
  const ExceedText: Bytes := "exceed limit of sequence steps. level="
  const PreviousText: Bytes := ", previous "
  const IndicationText: Bytes := " indication="

  /** `++idx` on a 16-bit unsigned index. */
  function Inc(idx: SizeType): (r: SizeType)
    ensures idx < SizeLimit - 1 ==> r == idx + 1
    ensures idx == SizeLimit - 1 ==> r == 0
  {
    (idx + 1) % SizeLimit
  }

  /** `--idx` on a 16-bit unsigned index. */
  function Dec(idx: SizeType): (r: SizeType)
    ensures idx > 0 ==> r == idx - 1
    ensures idx == 0 ==> r == SizeLimit - 1
  {
    (idx - 1) % SizeLimit
  }

  /** A step is a token of the search: it sits on the given level and has one
      of the given types. */
  predicate IsToken(s: Step, level: int, types: set<StepType>)
  {
    s.indentationLevel == level && s.stepType in types
  }

  /** `j` is the first token after `idx`: the scan starts at the incremented
      index and `j` is the first token it meets before the end of the steps. */
  predicate IsNextToken(steps: seq<Step>, level: int, types: set<StepType>, idx: SizeType, j: int)
  {
    Inc(idx) <= j < |steps| && IsToken(steps[j], level, types)
    && forall k :: Inc(idx) <= k < j ==> !IsToken(steps[k], level, types)
  }

  /** The forward scan from `idx` meets no token. */
  predicate NoNextToken(steps: seq<Step>, level: int, types: set<StepType>, idx: SizeType)
  {
    forall k :: Inc(idx) <= k < |steps| ==> !IsToken(steps[k], level, types)
  }

  /** The message thrown by a search that found nothing; `what` names the
      step the search started from. */
  function NotFoundMessage(level: Short, what: Bytes, idx: SizeType): (r: Bytes)
    ensures |Head| <= |r| && r[..|Head|] == Head
  {
    Head + ExceedText + SignedDecimal(level) + PreviousText + what + IndicationText + Decimal(idx)
  }

  /** The loop shared by all forward finders: `while (++idx < size)` checks
      the level and the type of each step.  The result is the first token
      after `idx`, or the error when there is none. */
  method FindNextToken(steps: seq<Step>, level: Short, idx: SizeType, types: set<StepType>, what: Bytes)
      returns (r: Result<SizeType>)
    requires |steps| <= MaxSize
    ensures r.Success? ==> IsNextToken(steps, level, types, idx, r.value)
    ensures r.Failure? ==> NoNextToken(steps, level, types, idx)
    ensures r.Failure? ==> r.error == NotFoundMessage(level, what, idx)
  {
    var i: SizeType := Inc(idx);
    while i < |steps|
      invariant Inc(idx) <= i
      invariant forall k :: Inc(idx) <= k < i && k < |steps| ==> !IsToken(steps[k], level, types)
      decreases |steps| - i
    {
      if steps[i].indentationLevel == level && steps[i].stepType in types {
        return Success(i);
      }
      i := Inc(i);
    }
    return Failure(NotFoundMessage(level, what, idx));
  }

  /** `find_while_end_token`: the END closing the WHILE at `idx`. */
  method FindWhileEndToken(steps: seq<Step>, level: Short, idx: SizeType) returns (r: Result<SizeType>)
    requires |steps| <= MaxSize
    ensures r.Success? ==> IsNextToken(steps, level, {End}, idx, r.value)
    ensures r.Failure? ==> NoNextToken(steps, level, {End}, idx)
    ensures r.Failure? ==> r.error == NotFoundMessage(level, "'while'", idx)
  {
    r := FindNextToken(steps, level, idx, {End}, "'while'");
  }

  /** `find_next_try_catch_token`: the CATCH of the TRY at `idx`. */
  method FindNextTryCatchToken(steps: seq<Step>, level: Short, idx: SizeType) returns (r: Result<SizeType>)
    requires |steps| <= MaxSize
    ensures r.Success? ==> IsNextToken(steps, level, {Catch}, idx, r.value)
    ensures r.Failure? ==> NoNextToken(steps, level, {Catch}, idx)
    ensures r.Failure? ==> r.error == NotFoundMessage(level, "'try'", idx)
  {
    r := FindNextToken(steps, level, idx, {Catch}, "'try'");
  }

  /** `find_next_try_end_token`: the END after the CATCH at `idx`. */
  method FindNextTryEndToken(steps: seq<Step>, level: Short, idx: SizeType) returns (r: Result<SizeType>)
    requires |steps| <= MaxSize
    ensures r.Success? ==> IsNextToken(steps, level, {End}, idx, r.value)
    ensures r.Failure? ==> NoNextToken(steps, level, {End}, idx)
    ensures r.Failure? ==> r.error == NotFoundMessage(level, "'catch'", idx)
  {
    r := FindNextToken(steps, level, idx, {End}, "'catch'");
  }

  /** `find_next_elseif_or_else_or_end_token`: the ELSEIF, ELSE or END that
      ends the branch of the IF at `idx`. */
  method FindNextElseIfOrElseOrEndToken(steps: seq<Step>, level: Short, idx: SizeType)
      returns (r: Result<SizeType>)
    requires |steps| <= MaxSize
    ensures r.Success? ==> IsNextToken(steps, level, {ElseIf, Else, End}, idx, r.value)
    ensures r.Failure? ==> NoNextToken(steps, level, {ElseIf, Else, End}, idx)
    ensures r.Failure? ==> r.error == NotFoundMessage(level, "'if'", idx)
  {
    r := FindNextToken(steps, level, idx, {ElseIf, Else, End}, "'if'");
  }

  /** `find_next_else_or_end_token`: the ELSE or END that ends the branch of
      the ELSEIF or ELSE at `idx`. */
  method FindNextElseOrEndToken(steps: seq<Step>, level: Short, idx: SizeType)
      returns (r: Result<SizeType>)
    requires |steps| <= MaxSize
    ensures r.Success? ==> IsNextToken(steps, level, {Else, End}, idx, r.value)
    ensures r.Failure? ==> NoNextToken(steps, level, {Else, End}, idx)
    ensures r.Failure? ==> r.error == NotFoundMessage(level, "'elseif' or 'else'", idx)
  {
    r := FindNextToken(steps, level, idx, {Else, End}, "'elseif' or 'else'");
  }

  /** `find_next_if_end_token`: the END of the IF block whose branch starts
      at `idx`. */
  method FindNextIfEndToken(steps: seq<Step>, level: Short, idx: SizeType) returns (r: Result<SizeType>)
    requires |steps| <= MaxSize
    ensures r.Success? ==> IsNextToken(steps, level, {End}, idx, r.value)
    ensures r.Failure? ==> NoNextToken(steps, level, {End}, idx)
    ensures r.Failure? ==> r.error == NotFoundMessage(level, "'if', 'elseif', or 'else'", idx)
  {
    r := FindNextToken(steps, level, idx, {End}, "'if', 'elseif', or 'else'");
  }

  /** A forward search from the last 16-bit index wraps around to index 0
      and so scans the whole sequence. */
  lemma NextTokenWrapsAround(steps: seq<Step>, level: int, types: set<StepType>, j: int)
    requires 0 <= j < |steps| && IsToken(steps[j], level, types)
    requires forall k :: 0 <= k < j ==> !IsToken(steps[k], level, types)
    ensures IsNextToken(steps, level, types, SizeLimit - 1, j)
  {
  }

  /** The number of indices below `idx` that `while (--idx < size)` visits:
      all of them when `idx` is at most the size, none otherwise (then the
      first decrement already leaves the range, or wraps around from 0). */
  function PreviousScanLength(steps: seq<Step>, idx: SizeType): (n: nat)
    ensures n <= idx && n <= |steps|
  {
    if idx <= |steps| then idx else 0
  }

  /** `j` is the last WHILE on the level among the indices visited backwards
      from `idx`. */
  predicate IsPreviousWhile(steps: seq<Step>, level: int, idx: SizeType, j: int)
  {
    0 <= j < PreviousScanLength(steps, idx) && IsToken(steps[j], level, {While})
    && forall k :: j < k < PreviousScanLength(steps, idx) ==> !IsToken(steps[k], level, {While})
  }

  /** `find_previous_while_token`: `while (--idx < size)` checks each index
      below `idx`, and stops when the decrement wraps around from 0 to 65535.
      The result is the largest WHILE on the level below `idx`. */
  method FindPreviousWhileToken(steps: seq<Step>, level: Short, idx: SizeType)
      returns (r: Result<SizeType>)
    requires |steps| <= MaxSize
    ensures r.Success? ==> IsPreviousWhile(steps, level, idx, r.value)
    ensures r.Failure? ==> forall k :: 0 <= k < PreviousScanLength(steps, idx) ==> !IsToken(steps[k], level, {While})
    ensures r.Failure? ==> r.error == NotFoundMessage(level, "'end' of 'while'", idx)
  {
    var i: SizeType := Dec(idx);
    // The lowest index visited so far; everything from it up to the end of
    // the scan is no WHILE on the level.
    ghost var low: nat := PreviousScanLength(steps, idx);
    while i < |steps|
      invariant i < |steps| ==> i + 1 == low
      invariant i >= |steps| ==> low == 0
      invariant low <= PreviousScanLength(steps, idx)
      invariant forall k :: low <= k < PreviousScanLength(steps, idx) ==> !IsToken(steps[k], level, {While})
      decreases low
    {
      if level == steps[i].indentationLevel && steps[i].stepType == While {
        return Success(i);
      }
      low := i;
      i := Dec(i);
    }
    return Failure(NotFoundMessage(level, "'end' of 'while'", idx));
  }

  /** For an index within the sequence, the backward search finds the
      largest WHILE on the level below it. */
  lemma PreviousWhileBelow(steps: seq<Step>, level: int, idx: SizeType, j: int)
    requires idx <= |steps|
    ensures IsPreviousWhile(steps, level, idx, j) <==>
      (0 <= j < idx && IsToken(steps[j], level, {While})
       && forall k :: j < k < idx ==> !IsToken(steps[k], level, {While}))
  {
  }

  /** `has_step`: whether `idx` is the index of a step.  The second
      disjunct of the source (the last step, if it is an END or an ACTION)
      already implies the first, so the function is the bound check. */
  function HasStep(steps: seq<Step>, idx: SizeType): (r: bool)
    ensures r <==> idx < |steps|
  {
    idx < |steps|
    || (idx > 1 && idx + 1 == |steps|
        && (TypeAt(steps, idx) == Some(End) || TypeAt(steps, idx) == Some(Action)))
  }

  /** `sequence[idx].get_type()`, with no value past the end. */
  function TypeAt(steps: seq<Step>, idx: int): (r: Option<StepType>)
    ensures r.Some? <==> 0 <= idx < |steps|
    ensures r.Some? ==> r.value == steps[idx].stepType
  {
    if 0 <= idx < |steps| then Some(steps[idx].stepType) else None
  }
}
