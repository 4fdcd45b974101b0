/** The block syntax check of a sequence (`Sequence::check_syntax`): IF may
    carry any number of ELSE IF clauses and at most one ELSE, after which no
    ELSE IF may follow, and closes with END; TRY needs a CATCH and then an
    END; WHILE needs an END.  A block ends at the first following step that
    is not indented deeper than its head. */
module Syntax {
  import opened Wrappers
  import opened Steps

  /** The messages of the block syntax errors. */
  const CatchWithoutTry: string := "CATCH without matching TRY"
  const ElseIfWithoutIf: string := "ELSE IF without matching IF"
  const ElseWithoutIf: string := "ELSE without matching IF"
  const EndWithoutBlock: string := "END without matching IF/WHILE/TRY"
  const IfWithoutEnd: string := "IF without matching END"
  const ElseIfAfterElse: string := "ELSE IF after ELSE clause"
  const DuplicateElse: string := "Duplicate ELSE clause"
  const UnfinishedIf: string := "Unfinished IF construct"
  const TryWithoutCatch: string := "TRY without matching CATCH"
  const TryCatchWithoutEnd: string := "TRY...CATCH without matching END"
  const WhileWithoutEnd: string := "WHILE without matching END"

  function SyntaxError(msg: string): string
  {
    "Syntax error: " + msg
  }

  /** All steps in [b, e) are indented deeper than level l. */
  predicate Deeper(steps: seq<Step>, b: int, e: int, l: int)
    requires 0 <= b && e <= |steps|
  {
    forall k :: b <= k < e ==> steps[k].indentationLevel > l
  }

  /** `find_end_of_indented_block`: the first step in [b, e) whose level is
      below minLevel, or b itself when there is none. */
  function FindEndOfIndentedBlock(steps: seq<Step>, b: nat, e: nat, minLevel: int): (r: nat)
    requires b <= e <= |steps|
    ensures b <= r <= e
    decreases e - b
  {
    if b == e then b
    else if steps[b].indentationLevel < minLevel then b
    else
      var r := FindEndOfIndentedBlock(steps, b + 1, e, minLevel);
      if r == b + 1 && !(r < e && steps[r].indentationLevel < minLevel) then b else r
  }

  /** The block end is the first step below minLevel; when every step is
      deeper, it is b. */
  lemma {:induction false} FindEndIsFirstShallower(steps: seq<Step>, b: nat, e: nat, minLevel: int)
    requires b <= e <= |steps|
    ensures var r := FindEndOfIndentedBlock(steps, b, e, minLevel);
      (r < e && steps[r].indentationLevel < minLevel ==> Deeper(steps, b, r, minLevel - 1)) &&
      (Deeper(steps, b, e, minLevel - 1) ==> r == b) &&
      (!Deeper(steps, b, e, minLevel - 1) ==> r < e && steps[r].indentationLevel < minLevel)
    decreases e - b
  {
    if b < e && steps[b].indentationLevel >= minLevel {
      FindEndIsFirstShallower(steps, b + 1, e, minLevel);
    }
  }

  /** `check_syntax(begin, end)`: None when the range is accepted, otherwise
      the message of the exception. */
  function CheckRange(steps: seq<Step>, b: nat, e: nat): (r: Option<string>)
    requires b <= e <= |steps|
    decreases e - b, 2
  {
    if b == e then None
    else match steps[b].stepType
      case While =>
        (match CheckWhile(steps, b, e)
         case Failure(m) => Some(m)
         case Success(p) => CheckRange(steps, p, e))
      case Try =>
        (match CheckTry(steps, b, e)
         case Failure(m) => Some(m)
         case Success(p) => CheckRange(steps, p, e))
      case If =>
        (match CheckIf(steps, b, b, false, e)
         case Failure(m) => Some(m)
         case Success(p) => CheckRange(steps, p, e))
      case Action => CheckRange(steps, b + 1, e)
      case Catch => Some(SyntaxError(CatchWithoutTry))
      case ElseIf => Some(SyntaxError(ElseIfWithoutIf))
      case Else => Some(SyntaxError(ElseWithoutIf))
      case End => Some(SyntaxError(EndWithoutBlock))
  }

  /** `check_syntax_for_if`: blk is the IF or the latest ELSE IF/ELSE clause
      of the block opened at begin; on success, the position after its END. */
  function CheckIf(steps: seq<Step>, begin: nat, blk: nat, elseFound: bool, e: nat): (r: Result<nat>)
    requires begin <= blk < e <= |steps|
    ensures r.Success? ==> blk + 2 <= r.value <= e
    decreases e - blk, 1
  {
    var l: int := steps[begin].indentationLevel;
    var it := FindEndOfIndentedBlock(steps, blk + 1, e, l + 1);
    if it == e then Failure(SyntaxError(IfWithoutEnd))
    else match CheckRange(steps, blk + 1, it)
      case Some(m) => Failure(m)
      case None =>
        match steps[it].stepType
        case ElseIf =>
          if elseFound then Failure(SyntaxError(ElseIfAfterElse))
          else CheckIf(steps, begin, it, false, e)
        case Else =>
          if elseFound then Failure(SyntaxError(DuplicateElse))
          else CheckIf(steps, begin, it, true, e)
        case End => Success(it + 1)
        case _ => Failure(SyntaxError(UnfinishedIf))
  }

  /** `check_syntax_for_try`: on success, the position after its END. */
  function CheckTry(steps: seq<Step>, begin: nat, e: nat): (r: Result<nat>)
    requires begin < e <= |steps|
    ensures r.Success? ==> begin + 3 <= r.value <= e && steps[r.value - 1].stepType == End
    ensures r.Success? ==>
      var c := FindEndOfIndentedBlock(steps, begin + 1, e, steps[begin].indentationLevel + 1);
      begin < c < r.value - 1 && steps[c].stepType == Catch
    decreases e - begin, 1
  {
    var l: int := steps[begin].indentationLevel;
    var itCatch := FindEndOfIndentedBlock(steps, begin + 1, e, l + 1);
    if itCatch == e || steps[itCatch].stepType != Catch then
      Failure(SyntaxError(TryWithoutCatch))
    else match CheckRange(steps, begin + 1, itCatch)
      case Some(m) => Failure(m)
      case None =>
        var itEnd := FindEndOfIndentedBlock(steps, itCatch + 1, e, l + 1);
        if itEnd == e || steps[itEnd].stepType != End then
          Failure(SyntaxError(TryCatchWithoutEnd))
        else match CheckRange(steps, itCatch + 1, itEnd)
          case Some(m) => Failure(m)
          case None => Success(itEnd + 1)
  }

  /** `check_syntax_for_while`: on success, the position after its END. */
  function CheckWhile(steps: seq<Step>, begin: nat, e: nat): (r: Result<nat>)
    requires begin < e <= |steps|
    ensures r.Success? ==> begin + 2 <= r.value <= e && steps[r.value - 1].stepType == End
    decreases e - begin, 1
  {
    var l: int := steps[begin].indentationLevel;
    var blockEnd := FindEndOfIndentedBlock(steps, begin + 1, e, l + 1);
    if blockEnd == e || steps[blockEnd].stepType != End then
      Failure(SyntaxError(WhileWithoutEnd))
    else match CheckRange(steps, begin + 1, blockEnd)
      case Some(m) => Failure(m)
      case None => Success(blockEnd + 1)
  }

  /** `Sequence::check_syntax()`: a recorded indentation error is reported
      first; otherwise the whole sequence is checked. */
  function CheckSyntax(indentationError: string, steps: seq<Step>): (r: Option<string>)
    ensures indentationError != [] ==> r == Some(indentationError)
    ensures indentationError == [] ==> r == CheckRange(steps, 0, |steps|)
  {
    if indentationError != [] then Some(indentationError) else CheckRange(steps, 0, |steps|)
  }

  /** A CATCH, ELSE IF, ELSE or END that no block consumes is rejected. */
  lemma StrayClauseRejected(steps: seq<Step>, b: nat, e: nat)
    requires b < e <= |steps|
    requires steps[b].stepType in {Catch, ElseIf, Else, End}
    ensures CheckRange(steps, b, e).Some?
  {
  }

  predicate NoStepOfType(steps: seq<Step>, b: int, e: int, t: StepType)
    requires 0 <= b && e <= |steps|
  {
    forall k :: b <= k < e ==> steps[k].stepType != t
  }

  /** A TRY with no CATCH anywhere after it is rejected, however the steps are
      indented. */
  lemma TryWithoutCatchRejected(steps: seq<Step>, b: nat, e: nat)
    requires b < e <= |steps| && steps[b].stepType == Try
    requires NoStepOfType(steps, b + 1, e, Catch)
    ensures CheckRange(steps, b, e) == Some(SyntaxError(TryWithoutCatch))
  {
  }

  /** A WHILE with no END after it is rejected. */
  lemma WhileWithoutEndRejected(steps: seq<Step>, b: nat, e: nat)
    requires b < e <= |steps| && steps[b].stepType == While
    requires NoStepOfType(steps, b + 1, e, End)
    ensures CheckRange(steps, b, e).Some?
  {
  }

  /** An IF with no END after it is rejected: every clause either fails or
      passes on to the next one, and the last attempt finds no END. */
  lemma {:induction false} IfWithoutEndRejected(steps: seq<Step>, begin: nat, blk: nat, elseFound: bool, e: nat)
    requires begin <= blk < e <= |steps|
    requires NoStepOfType(steps, blk + 1, e, End)
    ensures CheckIf(steps, begin, blk, elseFound, e).Failure?
    decreases e - blk
  {
    var l: int := steps[begin].indentationLevel;
    var it := FindEndOfIndentedBlock(steps, blk + 1, e, l + 1);
    if it < e && CheckRange(steps, blk + 1, it).None? {
      if steps[it].stepType == ElseIf && !elseFound {
        IfWithoutEndRejected(steps, begin, it, false, e);
      } else if steps[it].stepType == Else && !elseFound {
        IfWithoutEndRejected(steps, begin, it, true, e);
      }
    }
  }

  /** `d` is the clause that follows the clause at `c` in a block whose head
      is at level l: the first later step not indented deeper than l, or,
      when every later step is deeper, the step right after `c` (the
      `find_if` helper then answers with its own start). */
  predicate IsNextClause(steps: seq<Step>, c: nat, e: nat, l: int, d: nat)
    requires c < e <= |steps|
  {
    c < d <= e &&
    ((d < e && steps[d].indentationLevel <= l && Deeper(steps, c + 1, d, l))
     || (Deeper(steps, c + 1, e, l) && d == c + 1))
  }

  /** The block search finds the next clause, and the next clause is unique. */
  lemma NextClauseFound(steps: seq<Step>, c: nat, e: nat, l: int, d: nat)
    requires c < e <= |steps|
    ensures IsNextClause(steps, c, e, l, FindEndOfIndentedBlock(steps, c + 1, e, l + 1))
    ensures IsNextClause(steps, c, e, l, d) ==> d == FindEndOfIndentedBlock(steps, c + 1, e, l + 1)
  {
    FindEndIsFirstShallower(steps, c + 1, e, l + 1);
  }

  /** `cs` lists the clause positions of the block opened at cs[0] inside
      [cs[0], e): each is the next clause of the one before, and all but the
      last lie inside the range. */
  predicate IsClauseChain(steps: seq<Step>, e: nat, cs: seq<nat>)
  {
    |cs| >= 2 && e <= |steps|
    && (forall i :: 0 <= i < |cs| - 1 ==> cs[i] < e)
    && (forall i :: 0 <= i < |cs| ==> cs[i] <= e)
    && (forall i, j :: 0 <= i < j < |cs| ==> cs[i] < cs[j])
    && (forall i :: 0 < i < |cs| ==> LinkedAt(steps, e, cs, i))
  }

  /** Clause i is the next clause of clause i - 1. */
  predicate LinkedAt(steps: seq<Step>, e: nat, cs: seq<nat>, i: int)
  {
    0 < i < |cs| && cs[i - 1] < e <= |steps| && cs[0] < |steps|
    && IsNextClause(steps, cs[i - 1], e, steps[cs[0]].indentationLevel, cs[i])
  }

  /** The body between clause j - 1 and clause j passes the check. */
  predicate BodyPasses(steps: seq<Step>, cs: seq<nat>, j: int)
  {
    0 < j < |cs| && cs[j - 1] + 1 <= cs[j] <= |steps| && CheckRange(steps, cs[j - 1] + 1, cs[j]).None?
  }

  /** Clauses i+1 .. |cs|-1 read ELSE IF*, then an optional ELSE, then END. */
  predicate ClausesFollowGrammar(steps: seq<Step>, e: nat, cs: seq<nat>, i: nat)
    requires IsClauseChain(steps, e, cs)
  {
    var last := |cs| - 1;
    cs[last] < e && steps[cs[last]].stepType == End
    && forall j :: i < j < last ==>
         steps[cs[j]].stepType == ElseIf || (j == last - 1 && steps[cs[j]].stepType == Else)
  }

  /** The body of every clause after index i passes the check. */
  predicate BodiesPass(steps: seq<Step>, e: nat, cs: seq<nat>, i: nat)
    requires IsClauseChain(steps, e, cs)
  {
    forall j :: i < j < |cs| ==> BodyPasses(steps, cs, j)
  }

  lemma GrammarStep(steps: seq<Step>, e: nat, cs: seq<nat>, i: nat)
    requires IsClauseChain(steps, e, cs) && i < |cs| - 1
    ensures i + 1 == |cs| - 1 ==>
      (ClausesFollowGrammar(steps, e, cs, i) <==> cs[i + 1] < e && steps[cs[i + 1]].stepType == End)
    ensures i + 1 < |cs| - 1 ==>
      (ClausesFollowGrammar(steps, e, cs, i) <==>
         ClausesFollowGrammar(steps, e, cs, i + 1) &&
         (steps[cs[i + 1]].stepType == ElseIf || (i + 2 == |cs| - 1 && steps[cs[i + 1]].stepType == Else)))
  {
  }

  lemma BodiesStep(steps: seq<Step>, e: nat, cs: seq<nat>, i: nat)
    requires IsClauseChain(steps, e, cs) && i < |cs| - 1
    ensures BodiesPass(steps, e, cs, i) <==>
      BodiesPass(steps, e, cs, i + 1) && CheckRange(steps, cs[i] + 1, cs[i + 1]).None?
  {
    assert BodyPasses(steps, cs, i + 1) <==> CheckRange(steps, cs[i] + 1, cs[i + 1]).None?;
  }

  /** One round of `check_syntax_for_if`, seen from the next clause d: an
      END ends the block. */
  lemma CheckIfEnds(steps: seq<Step>, begin: nat, blk: nat, elseFound: bool, e: nat, d: nat)
    requires begin <= blk < e <= |steps|
    requires d == FindEndOfIndentedBlock(steps, blk + 1, e, steps[begin].indentationLevel + 1)
    requires d < e && CheckRange(steps, blk + 1, d).None? && steps[d].stepType == End
    ensures CheckIf(steps, begin, blk, elseFound, e) == Success(d + 1)
  {
  }

  /** An ELSE IF, or an ELSE before any other, opens the next round. */
  lemma CheckIfContinues(steps: seq<Step>, begin: nat, blk: nat, elseFound: bool, e: nat, d: nat)
    requires begin <= blk < e <= |steps|
    requires d == FindEndOfIndentedBlock(steps, blk + 1, e, steps[begin].indentationLevel + 1)
    requires d < e && CheckRange(steps, blk + 1, d).None? && steps[d].stepType in {ElseIf, Else}
    requires !elseFound
    ensures CheckIf(steps, begin, blk, elseFound, e) == CheckIf(steps, begin, d, steps[d].stepType == Else, e)
  {
  }

  /** After an ELSE, an ELSE IF or a second ELSE is rejected. */
  lemma CheckIfAfterElse(steps: seq<Step>, begin: nat, blk: nat, e: nat, d: nat)
    requires begin <= blk < e <= |steps|
    requires d == FindEndOfIndentedBlock(steps, blk + 1, e, steps[begin].indentationLevel + 1)
    requires d < e && CheckRange(steps, blk + 1, d).None? && steps[d].stepType in {ElseIf, Else}
    ensures CheckIf(steps, begin, blk, true, e) == Failure(SyntaxError(
              if steps[d].stepType == ElseIf then ElseIfAfterElse else DuplicateElse))
  {
  }

  /** Any other next clause, a missing one or a failing body ends the check
      with an error. */
  lemma CheckIfFails(steps: seq<Step>, begin: nat, blk: nat, elseFound: bool, e: nat, d: nat)
    requires begin <= blk < e <= |steps|
    requires d == FindEndOfIndentedBlock(steps, blk + 1, e, steps[begin].indentationLevel + 1)
    requires !(d < e && CheckRange(steps, blk + 1, d).None? && steps[d].stepType in {ElseIf, Else, End})
    ensures CheckIf(steps, begin, blk, elseFound, e).Failure?
  {
  }

  /** When one round of `check_syntax_for_if` leads to a success: the next
      clause is END and the block ends after it, or the next clause is an
      ELSE IF or a first ELSE and the following rounds succeed. */
  lemma CheckIfSucceeds(steps: seq<Step>, begin: nat, blk: nat, elseFound: bool, e: nat, d: nat, x: nat)
    requires begin <= blk < e <= |steps|
    requires IsNextClause(steps, blk, e, steps[begin].indentationLevel, d)
    ensures CheckIf(steps, begin, blk, elseFound, e) == Success(x) <==>
      d < e && CheckRange(steps, blk + 1, d).None? &&
      ((steps[d].stepType == End && x == d + 1) ||
       (steps[d].stepType in {ElseIf, Else} && !elseFound &&
        CheckIf(steps, begin, d, steps[d].stepType == Else, e) == Success(x)))
  {
    NextClauseFound(steps, blk, e, steps[begin].indentationLevel, d);
    var passes := d < e && CheckRange(steps, blk + 1, d).None?;
    if passes && steps[d].stepType == End {
      CheckIfEnds(steps, begin, blk, elseFound, e, d);
    } else if passes && steps[d].stepType in {ElseIf, Else} {
      if elseFound {
        CheckIfAfterElse(steps, begin, blk, e, d);
      } else {
        CheckIfContinues(steps, begin, blk, elseFound, e, d);
      }
    } else {
      CheckIfFails(steps, begin, blk, elseFound, e, d);
    }
  }

  /** The IF rules from clause i on: the check resumed at clause i succeeds
      at the step after the last clause exactly when the remaining clauses
      follow the grammar, an ELSE at i is followed by END alone, and every
      body passes. */
  predicate IfTailAccepts(steps: seq<Step>, e: nat, cs: seq<nat>, i: nat)
    requires IsClauseChain(steps, e, cs) && i < |cs| - 1
  {
    var elseFound := i > 0 && steps[cs[i]].stepType == Else;
    CheckIf(steps, cs[0], cs[i], elseFound, e) == Success(cs[|cs| - 1] + 1) <==>
      ClausesFollowGrammar(steps, e, cs, i) && (elseFound ==> i == |cs| - 2)
      && BodiesPass(steps, e, cs, i)
  }

  /** The last round: only an END as the last clause ends the block there. */
  lemma IfLastClause(steps: seq<Step>, e: nat, cs: seq<nat>, i: nat)
    requires IsClauseChain(steps, e, cs) && i == |cs| - 2
    ensures IfTailAccepts(steps, e, cs, i)
  {
    var d := cs[i + 1];
    var elseFound := i > 0 && steps[cs[i]].stepType == Else;
    assert LinkedAt(steps, e, cs, i + 1);
    CheckIfSucceeds(steps, cs[0], cs[i], elseFound, e, d, d + 1);
    GrammarStep(steps, e, cs, i);
    BodiesStep(steps, e, cs, i);
    if d < e && steps[d].stepType in {ElseIf, Else} {
      var r := CheckIf(steps, cs[0], d, steps[d].stepType == Else, e);
      assert r.Success? ==> r.value >= d + 2;
    }
  }

  /** An earlier round: the block goes on exactly when the next clause is an
      ELSE IF or a first ELSE whose body passes. */
  lemma {:induction false} IfTailAccepted(steps: seq<Step>, e: nat, cs: seq<nat>, i: nat)
    requires IsClauseChain(steps, e, cs) && i < |cs| - 1
    requires i > 0 ==> steps[cs[i]].stepType in {ElseIf, Else}
    ensures IfTailAccepts(steps, e, cs, i)
    decreases |cs| - i
  {
    var last := |cs| - 1;
    if i + 1 == last {
      IfLastClause(steps, e, cs, i);
    } else {
      var elseFound := i > 0 && steps[cs[i]].stepType == Else;
      var d := cs[i + 1];
      assert LinkedAt(steps, e, cs, i + 1);
      assert d < cs[last];
      CheckIfSucceeds(steps, cs[0], cs[i], elseFound, e, d, cs[last] + 1);
      GrammarStep(steps, e, cs, i);
      BodiesStep(steps, e, cs, i);
      if d < e && CheckRange(steps, cs[i] + 1, d).None? && steps[d].stepType in {ElseIf, Else} && !elseFound {
        IfTailAccepted(steps, e, cs, i + 1);
      }
    }
  }

  /** The IF rules of `check_syntax` over all inputs: an IF block is
      accepted, ending after its last clause, exactly when its clauses are
      ELSE IF*, an optional ELSE and END, and every clause body passes. */
  lemma IfClausesAccepted(steps: seq<Step>, e: nat, cs: seq<nat>)
    requires IsClauseChain(steps, e, cs)
    ensures CheckIf(steps, cs[0], cs[0], false, e) == Success(cs[|cs| - 1] + 1) <==>
      ClausesFollowGrammar(steps, e, cs, 0) && BodiesPass(steps, e, cs, 0)
  {
    IfTailAccepted(steps, e, cs, 0);
    assert IfTailAccepts(steps, e, cs, 0);
  }

  /** Up to clause k the bodies pass and the check carries on. */
  lemma {:induction false} IfPassesTo(steps: seq<Step>, e: nat, cs: seq<nat>, i: nat, k: nat)
    requires IsClauseChain(steps, e, cs) && i <= k < |cs| - 1
    requires forall j :: 0 < j < k ==> steps[cs[j]].stepType == ElseIf
    requires 0 < k && steps[cs[k]].stepType == Else
    requires i > 0 ==> steps[cs[i]].stepType in {ElseIf, Else}
    requires forall j :: i < j <= k ==> BodyPasses(steps, cs, j)
    ensures CheckIf(steps, cs[0], cs[i], i > 0 && steps[cs[i]].stepType == Else, e)
              == CheckIf(steps, cs[0], cs[k], true, e)
    decreases k - i
  {
    if i < k {
      assert LinkedAt(steps, e, cs, i + 1) && BodyPasses(steps, cs, i + 1);
      NextClauseFound(steps, cs[i], e, steps[cs[0]].indentationLevel, cs[i + 1]);
      CheckIfContinues(steps, cs[0], cs[i], i > 0 && steps[cs[i]].stepType == Else, e, cs[i + 1]);
      IfPassesTo(steps, e, cs, i + 1, k);
    }
  }

  /** A clause after the ELSE is rejected with the source's message: ELSE IF
      after ELSE, or a second ELSE. */
  lemma ClauseAfterElseRejected(steps: seq<Step>, e: nat, cs: seq<nat>, k: nat)
    requires IsClauseChain(steps, e, cs) && 0 < k && k + 1 < |cs| && cs[k + 1] < e
    requires forall j :: 0 < j < k ==> steps[cs[j]].stepType == ElseIf
    requires steps[cs[k]].stepType == Else && steps[cs[k + 1]].stepType in {ElseIf, Else}
    requires forall j :: 0 < j <= k + 1 ==> BodyPasses(steps, cs, j)
    ensures CheckIf(steps, cs[0], cs[0], false, e) == Failure(SyntaxError(
              if steps[cs[k + 1]].stepType == ElseIf then ElseIfAfterElse
              else DuplicateElse))
  {
    IfPassesTo(steps, e, cs, 0, k);
    assert LinkedAt(steps, e, cs, k + 1) && BodyPasses(steps, cs, k + 1);
    NextClauseFound(steps, cs[k], e, steps[cs[0]].indentationLevel, cs[k + 1]);
    CheckIfAfterElse(steps, cs[0], cs[k], e, cs[k + 1]);
  }

  /** The TRY rules over all inputs: with c the clause after the TRY at b
      and d the clause after c, the block is accepted, ending after d,
      exactly when c is the CATCH, d is the END and both bodies pass. */
  lemma TryClausesAccepted(steps: seq<Step>, e: nat, b: nat, c: nat, d: nat)
    requires b < e <= |steps|
    requires IsNextClause(steps, b, e, steps[b].indentationLevel, c) && c < e
    requires IsNextClause(steps, c, e, steps[b].indentationLevel, d)
    ensures CheckTry(steps, b, e) == Success(d + 1) <==>
      d < e && steps[c].stepType == Catch && steps[d].stepType == End
      && CheckRange(steps, b + 1, c).None? && CheckRange(steps, c + 1, d).None?
  {
    NextClauseFound(steps, b, e, steps[b].indentationLevel, c);
    NextClauseFound(steps, c, e, steps[b].indentationLevel, d);
    TryCatchMissing(steps, e, b, c);
    TryBodyFails(steps, e, b, c);
    TryEndMissing(steps, e, b, c, d);
    TryCatchBodyFails(steps, e, b, c, d);
    TryPasses(steps, e, b, c, d);
  }

  lemma TryCatchMissing(steps: seq<Step>, e: nat, b: nat, c: nat)
    requires b < e <= |steps|
    requires c == FindEndOfIndentedBlock(steps, b + 1, e, steps[b].indentationLevel + 1) && c < e
    ensures steps[c].stepType != Catch ==> CheckTry(steps, b, e).Failure?
  {
  }

  lemma TryBodyFails(steps: seq<Step>, e: nat, b: nat, c: nat)
    requires b < e <= |steps|
    requires c == FindEndOfIndentedBlock(steps, b + 1, e, steps[b].indentationLevel + 1) && c < e
    ensures CheckRange(steps, b + 1, c).Some? ==> CheckTry(steps, b, e).Failure?
  {
  }

  lemma TryEndMissing(steps: seq<Step>, e: nat, b: nat, c: nat, d: nat)
    requires b < e <= |steps|
    requires c == FindEndOfIndentedBlock(steps, b + 1, e, steps[b].indentationLevel + 1) && c < e
    requires d == FindEndOfIndentedBlock(steps, c + 1, e, steps[b].indentationLevel + 1)
    ensures (d == e || steps[d].stepType != End) ==> CheckTry(steps, b, e).Failure?
  {
  }

  lemma TryCatchBodyFails(steps: seq<Step>, e: nat, b: nat, c: nat, d: nat)
    requires b < e <= |steps|
    requires c == FindEndOfIndentedBlock(steps, b + 1, e, steps[b].indentationLevel + 1) && c < e
    requires d == FindEndOfIndentedBlock(steps, c + 1, e, steps[b].indentationLevel + 1)
    ensures CheckRange(steps, c + 1, d).Some? ==> CheckTry(steps, b, e).Failure?
  {
  }

  lemma TryPasses(steps: seq<Step>, e: nat, b: nat, c: nat, d: nat)
    requires b < e <= |steps|
    requires c == FindEndOfIndentedBlock(steps, b + 1, e, steps[b].indentationLevel + 1) && c < e
    requires d == FindEndOfIndentedBlock(steps, c + 1, e, steps[b].indentationLevel + 1)
    ensures (d < e && steps[c].stepType == Catch && steps[d].stepType == End
             && CheckRange(steps, b + 1, c).None? && CheckRange(steps, c + 1, d).None?) ==>
      CheckTry(steps, b, e) == Success(d + 1)
  {
  }

  /** The step of type t at level l, as `push_back` leaves it. */
  function S(t: StepType, l: Level): Step
  {
    NewStep(t, 0).(indentationLevel := l)
  }

  /** A correctly indented TRY ... END without CATCH is still rejected. */
  lemma TryEndRejected()
    ensures CheckRange([S(Try, 0), S(Action, 1), S(End, 0)], 0, 3)
              == Some(SyntaxError(TryWithoutCatch))
  {
    TryWithoutCatchRejected([S(Try, 0), S(Action, 1), S(End, 0)], 0, 3);
  }

  lemma TryCatchEndAccepted()
    ensures CheckRange([S(Try, 0), S(Action, 1), S(Catch, 0), S(Action, 1), S(End, 0)], 0, 5).None?
  {
    var steps := [S(Try, 0), S(Action, 1), S(Catch, 0), S(Action, 1), S(End, 0)];
    assert FindEndOfIndentedBlock(steps, 1, 5, 1) == 2;
    assert FindEndOfIndentedBlock(steps, 3, 5, 1) == 4;
  }

  lemma IfElseIfElseEndAccepted()
    ensures CheckRange([S(If, 0), S(ElseIf, 0), S(Action, 1), S(Else, 0), S(End, 0)], 0, 5).None?
  {
    var steps := [S(If, 0), S(ElseIf, 0), S(Action, 1), S(Else, 0), S(End, 0)];
    assert FindEndOfIndentedBlock(steps, 1, 5, 1) == 1;
    assert FindEndOfIndentedBlock(steps, 2, 5, 1) == 3;
    assert FindEndOfIndentedBlock(steps, 4, 5, 1) == 4;
    assert CheckIf(steps, 0, 3, true, 5) == Success(5);
    assert CheckIf(steps, 0, 1, false, 5) == Success(5);
  }

  lemma ElseIfAfterElseRejected()
    ensures CheckRange([S(If, 0), S(Else, 0), S(ElseIf, 0), S(End, 0)], 0, 4)
              == Some(SyntaxError(ElseIfAfterElse))
  {
    var steps := [S(If, 0), S(Else, 0), S(ElseIf, 0), S(End, 0)];
    assert FindEndOfIndentedBlock(steps, 1, 4, 1) == 1;
    assert FindEndOfIndentedBlock(steps, 2, 4, 1) == 2;
  }

  lemma DuplicateElseRejected()
    ensures CheckRange([S(If, 0), S(Else, 0), S(Else, 0), S(End, 0)], 0, 4)
              == Some(SyntaxError(DuplicateElse))
  {
    var steps := [S(If, 0), S(Else, 0), S(Else, 0), S(End, 0)];
    assert FindEndOfIndentedBlock(steps, 1, 4, 1) == 1;
    assert FindEndOfIndentedBlock(steps, 2, 4, 1) == 2;
  }
}
