# taskolib sequence core in Dafny

This project models the core of taskolib, a library for step sequences that
drive control systems. A sequence is a list of steps. Each step has a type
(ACTION, IF, ELSEIF, ELSE, WHILE, TRY, CATCH, END), an indentation level, a
disabled flag, a label, a script and a set of context variable names. The
model covers these parts:

- the `Sequence` container, as a Dafny class whose methods change its fields;
- the invariants it re-establishes after every edit:
  - `indent` recomputes the levels from the step types;
  - the disabled flags of each IF/WHILE/TRY block are kept consistent;
  - a stored error index keeps following its step;
- the recursive syntax check of the block language;
- the setters of `Step`;
- the validators of variable names, sequence names and tags;
- the hex form of unique IDs;
- the classification of abort-marker error messages;
- the djb2a keyword hash;
- the `Timeout` value type and the saturating deadline of `get_ms_since_epoch`;
- the line-based step and sequence reader and the step writer, with a round
  trip between them;
- file name escaping and zero-padded step file names;
- the label sanitiser, glob escaping and unique-ID search of the sequence
  manager;
- the index searches of the legacy interpreter in `execute_sequence.cc`.

Strings are `seq<char>` restricted to byte values (`Text.Bytes`). Integer widths
are written out where the source depends on them:
- the 16-bit step index (`SizeType`, `StepIndex`) wraps around;
- djb2a works on `bv64`;
- `long long` is modelled as `LLong`.

Clocks become values: `now` is passed in, and the time formatter and parser of
the (de)serializers are parameters.

In `execute_sequence.cc`, `find_previous_while_token` visits no index when idx
is larger than the size (`ExecuteSequence.PreviousScanLength`).

Module layout (one file per module):

| file | module | models |
|---|---|---|
| wrappers.dfy | Wrappers | `Option`, `Result` |
| text.dfy | Text | the gul string helpers: trim, find, split, tokenize, escape, decimal and hex digits |
| ordering.dfy | Ordering | lexicographic order; sorted, duplicate-free tag lists |
| step.dfy | Steps | `Step` and its setters |
| timeout.dfy | Timeouts | `Timeout` |
| hash_string.dfy, keyword_hashes.dfy | HashString, KeywordHashes | djb2a and the hashes of the header keywords |
| lua_details.dfy | LuaDetails | `get_ms_since_epoch` |
| internals.dfy | Internals | `remove_abort_markers` |
| variable_name.dfy, sequence_name.dfy, tag.dfy, unique_id.dfy | VariableNames, SequenceNames, Tags, UniqueIds | the value types with validation |
| indentation.dfy | Indentation | the rule of `indent` |
| syntax.dfy | Syntax | `check_syntax` |
| consistency.dfy | Consistency | `find_end_of_continuation` and `enforce_consistency_of_disabled_flags` |
| sequence.dfy | Sequences | the `Sequence` class |
| deserialize.dfy, sequence_reader.dfy | Deserialize, SequenceReader | `operator>>` for steps and sequences |
| serialize.dfy | Serialize | `operator<<` for steps, file names |
| sequence_manager.dfy | SequenceManagers | the pure helpers of `SequenceManager` |
| execute_sequence.dfy | ExecuteSequence | the index searches of the legacy interpreter |

## Model

| member | source | states |
|---|---|---|
| Steps.NewStep | include/taskolib/Step.h:68-70 | a new step has the given type and an empty label, script and name set; it has level 0, the infinite timeout, and is neither running nor disabled |
| Steps.SetDisabled | src/Step.cc:199-209 | the flag becomes `disable`; the step is unchanged when the flag already had that value, and otherwise the modification time becomes `now` |
| Steps.SetDisabledIdempotent | src/Step.cc:199-209 | setting the same flag twice equals setting it once, whatever the second time |
| Steps.SetIndentationLevel | src/Step.cc:211-224 | succeeds iff 0 <= level <= 20 and then stores the level exactly; a negative level and a level above 20 fail with the source's two messages |
| Steps.SetLabel | src/Step.cc:226-231 | the label becomes the trimmed text, with no space at either end; the modification time becomes `now`; nothing else changes |
| Steps.SetLabelOfLabel | src/Step.cc:226-231 | trimming is stable: setting a label that is already trimmed stores it unchanged |
| Steps.SetScript | src/Step.cc:239-244 | stores the script and sets the modification time, changing nothing else |
| Steps.SetType | src/Step.cc:264-269 | stores the type and sets the modification time, changing nothing else |
| Steps.SetRunning | src/Step.cc:233-237 | changes only the running flag |
| Steps.SetTimeOfLastExecution | src/Step.cc:246-250 | changes only the execution time |
| Steps.SetTimeOfLastModification | src/Step.cc:252-256 | changes only the modification time |
| Steps.SetTimeout | src/Step.cc:258-262 | changes only the timeout |
| Steps.SetUsedContextVariableNames | src/Step.cc:271-281 | changes only the name set |
| Steps.TypeName | src/Step.cc:287-302 | every type name is a non-empty lower-case word |
| Steps.TypeNameInjective | src/Step.cc:287-302 | two types have the same name iff they are the same type |
| Steps.RequiresBoolReturnValueExactly | src/Step.cc:309-327 | true exactly for IF, ELSEIF and WHILE |
| Timeouts.Default | include/taskolib/Timeout.h:75 | the default timeout is infinite and greater than every finite timeout |
| Timeouts.Infinity | include/taskolib/Timeout.h:122 | `infinity()` is infinite and equals the default |
| Timeouts.ComparisonsAreTotalOrder | include/taskolib/Timeout.h:125-152 | equality and the four comparisons compare the stored milliseconds; they form a total order in which all infinite timeouts are equal and above every finite one |
| Timeouts.RoundHalfEven | include/taskolib/Timeout.h:91 | the quotient is within half a unit of the exact ratio |
| Timeouts.FromDuration | include/taskolib/Timeout.h:82-93 | fails with "Negative timeout" iff the count is negative; a duration of at least the maximum is infinite; any other duration is stored rounded to the nearest millisecond |
| Timeouts.FromMillisecondsIsExact | include/taskolib/Timeout.h:82-93 | a finite millisecond count is stored exactly |
| Timeouts.ToDuration | include/taskolib/Timeout.h:172-180 | an infinite timeout casts to the target type's maximum; a finite one casts to the truncated quotient of `duration_cast` |
| HashString.HashDjb2a | include/taskolib/hash_string.h:45-51 | the loop computes the recursive djb2a function of the bytes |
| HashString.EmptyHash | include/taskolib/hash_string.h:46 | the hash of the empty string is 5381 |
| HashString.HashSnoc | include/taskolib/hash_string.h:45-51 | appending byte c maps hash h to `((h << 5) + h) ^ c` |
| HashString.MixIsTimes33 | include/taskolib/hash_string.h:49 | `(h << 5) + h` is `h * 33` modulo 2^64 |
| HashString.ShLiteralIsDjb2a | include/taskolib/hash_string.h:56-58 | the literal operator `_sh` equals djb2a over the same bytes |
| KeywordHashes.HeaderShsAreHashes | src/deserialize_sequence.cc:218-249 | each `_sh` constant of the header switch is the djb2a hash of its keyword |
| KeywordHashes.HeaderHashesDistinct | src/deserialize_sequence.cc:218-249 | the seven header keywords have pairwise distinct hashes, so the switch tells them apart |
| KeywordHashes.TypeShsAreHashes | src/deserialize_sequence.cc:73-98 | each `_sh` constant of the type switch is the hash of its type name |
| KeywordHashes.TypeHashesDistinct | src/deserialize_sequence.cc:73-98 | the eight type names have pairwise distinct hashes |
| LuaDetails.Wrap | src/lua_details.cc:144 | two's-complement wrap into `long long` is the identity on values in range |
| LuaDetails.GetMsSinceEpoch | src/lua_details.cc:138-151 | for t0 >= 0: t0 + dt if dt < LLONG_MAX - t0, otherwise LLONG_MAX |
| LuaDetails.DeadlineIsSaturatedSum | src/lua_details.cc:138-151 | for t0, dt >= 0 the result is the sum saturated at LLONG_MAX and lies in [t0, LLONG_MAX] |
| LuaDetails.InfiniteTimeoutSaturates | src/lua_details.cc:138-151 | an infinite step timeout always yields LLONG_MAX |
| LuaDetails.NegativeStartOverflowsAsWritten | src/lua_details.cc:144-150 | as written, t0 = -1 and dt = 0 overflow `max_dt` and give LLONG_MAX instead of -1 |
| LuaDetails.SaturatedDeadlineIsSaturatedSum | src/lua_details.cc:138-151 | the corrected computation is the saturated sum for every t0; it agrees with the source for t0 >= 0 and gives -1 for t0 = -1, dt = 0 |
| Internals.RemoveAbortMarkers | src/internals.cc:35-62 | the cause is `uncaught_error` iff the message holds no abort marker, and then the message is returned unchanged; `terminated_by_script` comes with "Script called terminate_sequence()"; `aborted` comes with a non-empty text |
| Internals.OneMarker | src/internals.cc:48-50 | for any message `a` + marker + `b` in which that marker is the leftmost one and `b` holds none, the result is `a` joined to `b`, or the termination message when both are empty |
| Internals.TwoOrMoreMarkers | src/internals.cc:51-61 | for any message `a` + marker + `m` + marker + `b` in which those are the two leftmost markers, the result is `m`, whatever `b` holds, or the termination message when `m` is empty |
| Internals.EmptyMessageExample | src/internals.cc:42-47 | the empty message is an uncaught error |
| Internals.TerminationExamples | src/internals.cc:56-61 | one marker alone, or two adjacent markers, mean the script terminated the sequence |
| Internals.EnclosedExample | src/internals.cc:51-53 | "hydrogen" between two markers is extracted |
| Internals.EmbeddedExample | src/internals.cc:48-50 | one marker inside "beryllium" is removed |
| Internals.TwoEmbeddedMarkersExample | src/internals.cc:51-53 | only the text between the markers survives |
| Internals.StraySignExample | src/internals.cc:48-50 | a stop sign outside the marker is ordinary text and stays in the message |
| VariableNames.CheckName | src/VariableName.cc:39-55 | accepts iff the name has 1 to 64 bytes, starts with an ASCII letter and continues with letters, digits or '_'; empty and too-long names get the source's messages |
| VariableNames.FromString | src/VariableName.cc:69-79 | succeeds iff the name is valid and then stores it unchanged; otherwise the error is the message of `check_name` |
| VariableNames.FromCString | src/VariableName.cc:60-67 | a null pointer is rejected with its message; any other string behaves like `FromString` |
| VariableNames.Append | src/VariableName.cc:81-89 | succeeds iff the concatenation is valid and then holds the concatenation; on failure there is no new name, so the old one is kept |
| VariableNames.AppendWordCharacters | src/VariableName.cc:81-89 | appending letters, digits and '_' within the length limit always succeeds |
| VariableNames.RejectedExamples | src/VariableName.cc:39-55 | "", "_a", "1a", "42", "a c", "a\tc", "a-c", "a+c" and "a\0b" are rejected |
| VariableNames.AcceptedExamples | src/VariableName.cc:39-55 | "a", "b52", "snake_case" and "CamelCase" are accepted |
| VariableNames.TooLongRejected | src/VariableName.cc:47-49 | every name longer than 64 bytes is rejected with the "too long" message |
| Tags.CheckValidity | src/Tag.cc:42-57 | accepts iff the name has 1 to 32 bytes from [a-z0-9-]; the empty name gets the source's message |
| Tags.Create | src/Tag.cc:38-40 | the input is ASCII-lowercased first; succeeds iff the lowercased text is valid and stores it; otherwise the error is that of `check_validity` |
| Tags.FromString | src/Tag.cc:59-69 | none exactly when the constructor fails, otherwise the constructed tag |
| Tags.CaseInsensitive | src/Tag.cc:38-40 | inputs that are equal ignoring ASCII case make the same tag |
| Tags.CreateOfName | src/Tag.cc:38-57 | a stored tag name passes the validity check again and makes the same tag |
| Tags.AcceptedBytes | src/Tag.cc:38-57 | an accepted input contains only letters, digits and '-' |
| Tags.CaseFoldingExample | src/Tag.cc:38-40 | "Gulag" and "gulag" make the same tag |
| Tags.RejectedExamples | src/Tag.cc:42-57 | "", "a b" and ".abcd" are rejected |
| SequenceNames.FirstInvalid | src/SequenceName.cc:45-50 | the first byte outside [A-Za-z0-9-_.], with every byte before it valid; none iff all bytes are valid |
| SequenceNames.CheckValidityAsWritten | src/SequenceName.cc:37-53 | the check as written accepts iff the name has at most 64 bytes, all from [A-Za-z0-9-_.]; the empty name is valid |
| SequenceNames.CheckValidity | src/SequenceName.cc:37-53 | the corrected check accepts iff the name is valid and does not start with '.'; it reports the same message whenever the check as written objects |
| SequenceNames.Create | src/SequenceName.cc:33-35 | corrected: succeeds iff the name is valid under the corrected check (see Findings) and stores it unchanged; otherwise the error is the check's message |
| SequenceNames.FromString | src/SequenceName.cc:55-65 | corrected, as `Create`: none exactly when the constructor fails, otherwise the constructed name |
| SequenceNames.LeadingPeriodAcceptedAsWritten | src/SequenceName.cc:37-53 | ".abcd" passes the check as written, but the corrected `from_string` refuses it |
| SequenceNames.NoCaseFolding | src/SequenceName.cc:33-35 | "Gulag" and "gulag" are both valid and different |
| SequenceNames.LengthLimits | src/SequenceName.cc:37-53 | the empty name is accepted; every name over 64 bytes is refused |
| UniqueIds.HexPrefixLength | src/UniqueId.cc:53-59 | the length of the longest leading run of hex digits |
| UniqueIds.FromStringAsWritten | src/UniqueId.cc:48-60 | as written: some iff the string has 1 to 16 characters and its first is a hex digit; the value is that of the leading hex run |
| UniqueIds.FromString | src/UniqueId.cc:48-60 | corrected: some iff the string has 1 to 16 characters, all hex digits; the value is their hex value and agrees with the code as written |
| UniqueIds.HexPrefixAcceptedAsWritten | src/UniqueId.cc:53-59 | as written "0x1" parses to 0; the corrected version refuses it |
| UniqueIds.HexDigitsValue | src/UniqueId.cc:64-67 | n zero-padded hex digits of v < 16^n read back as v |
| UniqueIds.ToString | src/UniqueId.cc:64-67 | exactly 16 hex digits, none upper-case |
| UniqueIds.RoundTrip | src/UniqueId.cc:48-67 | `from_string(to_string(u)) == u` for every 64-bit u, under both versions of `from_string` |
| UniqueIds.ToStringInjective | src/UniqueId.cc:64-67 | different IDs have different strings |
| UniqueIds.FromStringExamples | src/UniqueId.cc:48-60 | "1234" parses to 0x1234; "", "gabbagabba" and a 17-digit string are refused |
| Text.Find | src/deserialize_sequence.cc:60-63 | the first occurrence of a pattern; none iff the pattern does not occur |
| Text.Split | src/internals.cc:37-38 | `split` yields at least one piece, no piece contains the separator, and joining the pieces with the separator gives the input back |
| Text.TrimIdempotent | src/Step.cc:228 | trimming twice equals trimming once |
| Text.UnescapeEscape | src/serialize_sequence.cc:99 | unescaping the escaped label gives the label back |
| Text.TokenizeJoin | src/deserialize_sequence.cc:307-315 | tokenizing words joined with spaces gives the words back |
| Text.ParseUnsigned | src/deserialize_sequence.cc:322-334 | succeeds iff the text is a non-empty run of digits whose value is at most the bound, and then yields that value |
| Ordering.SortUnique | src/Sequence.cc:753-759 | the result is strictly sorted by name and holds exactly the elements of the input |
| Ordering.SortedUnique | src/Sequence.cc:753-759 | two strictly sorted lists with the same elements are equal, so the sorted tag list is unique |
| Ordering.LexLessTotal | src/Sequence.cc:753-759 | the byte order of tag names is a strict total order |
| Indentation.Advance | src/Sequence.cc:640-666 | one iteration of the loop of `indent` never overwrites an error already found |
| Indentation.Levels | src/Sequence.cc:614-644 | step i gets the level computed from the loop state after the steps before it |
| Indentation.RunTracksRawDepth | src/Sequence.cc:614-677 | the clamped loop finds no error iff every prefix nests correctly, and then its depth is the unclamped count of open blocks |
| Indentation.IndentationErrorEmptyIff | src/Sequence.cc:640-677 | the error is empty iff no step gets a negative level, the depth stays in [0, 20] and the final depth is 0 |
| Indentation.LevelsFollowRule | src/Sequence.cc:616-638 | for well-nested steps, ACTION/IF/TRY/WHILE sit at the current depth and CATCH/ELSE/ELSEIF/END one less |
| Indentation.UnbalancedExamples | src/Sequence.cc:640-677 | a lone TRY is unclosed; a leading END is not nested correctly |
| Indentation.BalancedExample | src/Sequence.cc:640-677 | TRY, CATCH, END nests correctly |
| Indentation.LevelsExample | src/Sequence.cc:608-644 | IF, ACTION, ELSE, ACTION, END get the levels 0, 1, 0, 1, 0 |
| Syntax.FindEndOfIndentedBlock | src/Sequence.cc:51-63 | the result lies in [b, e] |
| Syntax.FindEndIsFirstShallower | src/Sequence.cc:51-63 | when every step in [b, e) is deeper than the minimum level, the result is b; otherwise it is the first step below the minimum level, and every step before it is deeper |
| Syntax.CheckIf | src/Sequence.cc:146-184 | on success the IF block ends at least two steps after the current clause and within the range; the clause rules are `IfClausesAccepted` and `ClauseAfterElseRejected` |
| Syntax.CheckTry | src/Sequence.cc:186-206 | on success the block takes at least three steps, the first step after the TRY that is not indented deeper is its CATCH, and the block ends with END |
| Syntax.CheckWhile | src/Sequence.cc:208-220 | on success the block takes at least two steps and ends with END |
| Syntax.CheckSyntax | src/Sequence.cc:91-97 | a non-empty indentation error is reported as it is; otherwise the whole step range is checked |
| Syntax.StrayClauseRejected | src/Sequence.cc:99-144 | a CATCH, ELSE IF, ELSE or END that no block consumes is rejected |
| Syntax.TryWithoutCatchRejected | src/Sequence.cc:186-206 | a TRY with no CATCH after it is rejected with "TRY without matching CATCH" |
| Syntax.WhileWithoutEndRejected | src/Sequence.cc:208-220 | a WHILE with no END after it is rejected |
| Syntax.IfWithoutEndRejected | src/Sequence.cc:146-184 | an IF with no END after it is rejected |
| Syntax.TryEndRejected | src/Sequence.cc:186-206 | a correctly indented TRY/END without CATCH is still rejected |
| Syntax.TryCatchEndAccepted | src/Sequence.cc:186-206 | TRY, ACTION, CATCH, ACTION, END is accepted |
| Syntax.IfElseIfElseEndAccepted | src/Sequence.cc:146-184 | IF, ELSE IF, ACTION, ELSE, END is accepted |
| Syntax.ElseIfAfterElseRejected | src/Sequence.cc:165-168 | example: IF, ELSE, ELSE IF, END is rejected with the source's message |
| Syntax.DuplicateElseRejected | src/Sequence.cc:170-174 | example: IF, ELSE, ELSE, END is rejected with the source's message |
| Syntax.NextClauseFound | src/Sequence.cc:154-155 | the block search from a clause finds its next clause. That is the first later step not indented deeper than the head, or the step right after the clause when every later step is deeper. The next clause is unique |
| Syntax.IfTailAccepted | src/Sequence.cc:150-183 | resumed at clause i, the IF check ends after the last clause exactly when the remaining clauses are ELSE IF*, an optional ELSE and END, an ELSE at i is followed by the END alone, and every remaining body passes |
| Syntax.IfClausesAccepted | src/Sequence.cc:146-184 | for every chain of clauses of an IF, the block is accepted and ends after its last clause exactly when the clauses read ELSE IF*, an optional ELSE, then END, and every clause body passes the check |
| Syntax.ClauseAfterElseRejected | src/Sequence.cc:163-174 | when the clauses before the first ELSE are ELSE IF and the next clause after it is an ELSE IF or an ELSE, the IF is rejected with "ELSE IF after ELSE clause" or "Duplicate ELSE clause"; this holds for every input, provided every body up to that clause passes |
| Syntax.TryClausesAccepted | src/Sequence.cc:186-206 | with c the clause after the TRY and d the one after c, the block is accepted and ends after d exactly when c is the CATCH, d is the END and both bodies pass |
| Consistency.FirstEndAt | src/Sequence.cc:573-586 | the first END on the given level at or after `from`, with none before it |
| Consistency.FindEndOfContinuation | src/Sequence.cc:573-602 | the end of a block's continuation lies after its head and within the steps |
| Consistency.SetDisabledRange | src/Sequence.cc:235-280 | sets the flag of exactly the steps in [b, e) |
| Consistency.EnableAtLevel | src/Sequence.cc:235-280 | enables exactly the steps in [b, e) that sit on the given level |
| Consistency.EnforceChangesOnlyFlags | src/Sequence.cc:235-280 | the walk changes no step in anything but its disabled flag and modification time |
| Consistency.EnforceKeepsShape | src/Sequence.cc:235-280 | the walk keeps every type and level |
| Consistency.EnforceConsistent | src/Sequence.cc:235-280 | for well-indented steps, every block head from the start of the walk on is consistent with its continuation afterwards |
| Consistency.EnforceEstablishesConsistency | src/Sequence.cc:235-280 | afterwards a disabled IF/TRY/WHILE has every step up to its END disabled, and an enabled one has its same-level clauses enabled; only flags change |
| Sequences.CorrectErrorIndex | src/Sequence.cc:222-233 | no error stays no error; the message is kept; an error without index is unchanged; an index is replaced by the new index computed from it |
| Sequences.NoErrorIndexChange | src/Sequence.cc:222-233 | an index function that keeps every index leaves the error alone |
| Sequences.DropLast | src/Sequence.cc:680-696 | removes the last step; an empty list stays empty |
| Sequences.EraseKeepsErrorTarget | src/Sequence.cc:288-306 | after erasing one step, the error index is cleared iff it named that step, and otherwise names the same step in the new list |
| Sequences.EraseRangeKeepsErrorTarget | src/Sequence.cc:308-334 | after erasing [b, e), the index is cleared iff it lay in the range, and otherwise names the same step |
| Sequences.InsertKeepsErrorTarget | include/taskolib/Sequence.h:446-464 | after inserting a step, the index names the same step as before |
| Sequences.InsertWrapsLargestIndex | include/taskolib/Sequence.h:446-464 | the 16-bit index 65535 wraps to 0 when shifted by an insert |
| Sequences.LabelError | src/Sequence.cc:719-732 | a trimmed label is accepted iff it has no control characters and at most 128 bytes |
| Sequences.Sequence.constructor | src/Sequence.cc:68-73 | a new sequence with the empty label is empty, has no error and no indentation error, and satisfies the class invariant |
| Sequences.Sequence.Create | src/Sequence.cc:68-73 | construction with a label fails iff `set_label` refuses the trimmed label; otherwise the new sequence has the trimmed label and satisfies the invariant |
| Sequences.Sequence.ThrowIfRunning | src/Sequence.cc:777-781 | an error iff the sequence is running, with the message "Cannot change a running sequence" |
| Sequences.Sequence.ThrowIfFull | src/Sequence.cc:771-775 | an error iff the sequence holds 65535 steps |
| Sequences.Sequence.CheckSyntax | src/Sequence.cc:91-97 | the stored indentation error if there is one, otherwise the syntax check of all steps |
| Sequences.Sequence.Indent | src/Sequence.cc:608-678 | the steps become their re-indented version and the indentation error is that of the step types; nothing else changes |
| Sequences.IndentSteps | src/Sequence.cc:608-678 | the loop computes the re-indented steps and the indentation error of the step types |
| Sequences.IndentStep | src/Sequence.cc:616-666 | one loop iteration computes the step's level and the next loop state |
| Sequences.NestStep | src/Sequence.cc:618-638 | the switch gives the unclamped level and next depth of each type |
| Sequences.Sequence.SetDisabledInRange | src/Sequence.cc:250-255 | sets the flag of the steps in [b, e) and changes nothing else |
| Sequences.Sequence.EnableAtLevelInRange | src/Sequence.cc:257-267 | enables the same-level steps in [b, e) and changes nothing else |
| Sequences.Sequence.EnforceConsistencyOfDisabledFlags | src/Sequence.cc:235-280 | the steps become the result of the consistency walk; nothing else changes |
| Sequences.Sequence.EnforceInvariants | src/Sequence.cc:282-286 | the steps are re-indented and made consistent, and the invariant on steps holds again |
| Sequences.Sequence.Assign | src/Sequence.cc:75-89 | refused while running, changing nothing; otherwise replaces the step and re-establishes the invariants |
| Sequences.Sequence.Erase | src/Sequence.cc:288-306 | refused while running; otherwise removes exactly the step at idx, keeps the rest in order, shifts the error index and returns idx |
| Sequences.Sequence.EraseRange | src/Sequence.cc:308-334 | refused while running or when b > e; otherwise removes [b, e), clears an index in the range and shifts later indices down by e - b |
| Sequences.Sequence.RemoveRange | src/Sequence.cc:320-331 | the vector erase and index correction of `erase(b, e)` |
| Sequences.Sequence.PopBack | src/Sequence.cc:680-696 | refused while running; otherwise removes the last step (a no-op on an empty sequence) and clears an index that named it |
| Sequences.Sequence.RemoveLast | src/Sequence.cc:683-694 | the vector pop and index correction of `pop_back` |
| Sequences.Sequence.PushBack | src/Sequence.cc:698-712 | refused while running or full; otherwise appends the step and re-establishes the invariants |
| Sequences.Sequence.Insert | include/taskolib/Sequence.h:446-464 | refused while running or full; otherwise the step sits at the given position, the rest keeps its order, and an index at or after the position is incremented |
| Sequences.Sequence.Modify | include/taskolib/Sequence.h:509-546 | refused while running with the step untouched; otherwise the modified step (kept even when the modification throws, whose error is returned) goes through the finally block: re-indent if type or level changed, re-enable a re-enabled block head up to its END, make flags consistent |
| Sequences.Sequence.IndentIfNecessary | include/taskolib/Sequence.h:517-541 | the finally block of `modify` |
| Sequences.ModifiedKeepsInvariant | include/taskolib/Sequence.h:517-546 | the steps `modify` leaves have computed levels and, when they nest, consistent flags; a user-set level is overwritten |
| Sequences.EnforceRestoresInvariant | src/Sequence.cc:282-286 | on steps with computed levels, the walk keeps types and levels and makes the flags consistent when the steps nest |
| Sequences.NormalizeKeepsInvariant | src/Sequence.cc:282-286 | re-indenting and then enforcing consistency always yields computed levels and, when the steps nest, consistent flags |
| Sequences.ReindentComputesLevels | src/Sequence.cc:608-678 | re-indenting keeps the types and leaves every step at its computed level |
| Sequences.Sequence.SetLabel | src/Sequence.cc:719-732 | stores the trimmed label iff it has no control characters and at most 128 bytes, else reports the error and keeps the old label |
| Sequences.Sequence.SetMaintainers | src/Sequence.cc:734-741 | stores the trimmed text unless it has control characters |
| Sequences.Sequence.SetStepSetupScript | src/Sequence.cc:743-751 | refused while running; otherwise stores the script with trailing whitespace removed |
| Sequences.Sequence.SetTags | src/Sequence.cc:753-759 | the tags become the sorted, duplicate-free list of exactly the given tags |
| Sequences.Sequence.SetRunning | include/taskolib/Sequence.h:661 | changes only the running flag |
| Sequences.Sequence.SetError | src/Sequence.cc:714-717 | changes only the stored error |
| Sequences.Sequence.SetTimeout | include/taskolib/Sequence.h:675 | changes only the timeout |
| Sequences.Sequence.SetAutomation | src/Sequence.cc:761-764 | `set_autorun`, which the sequence reader calls `set_automation`: changes only the automation flag |
| Deserialize.Lines | src/deserialize_sequence.cc:193 | the lines `getline` returns contain no newline; there are none iff the text is empty |
| Deserialize.LinesOfUnlines | src/deserialize_sequence.cc:193 | reading back lines each followed by a newline gives the lines |
| Deserialize.UnlinesOfLines | src/deserialize_sequence.cc:193 | a text ending in a newline is its lines, each followed by a newline |
| Deserialize.ExtractKeyword | src/deserialize_sequence.cc:55-71 | a line without the "-- " prefix or without ':' gives no keyword and the whole line; a keyword is trimmed |
| Deserialize.KeywordOfHeaderLine | src/deserialize_sequence.cc:55-71 | "-- k:rest" with a trimmed keyword k gives (k, rest), e.g. "-- label: Hello" gives ("label", " Hello") |
| Deserialize.CommentExample | src/deserialize_sequence.cc:47-71 | " -- Comment" has no keyword |
| Deserialize.TypeOfHash | src/deserialize_sequence.cc:73-98 | a hash names a type iff it is one of the eight type hashes |
| Deserialize.TypeOfTypeName | src/deserialize_sequence.cc:73-98 | every type name is read back as its type |
| Deserialize.ExtractType | src/deserialize_sequence.cc:73-98 | succeeds iff the trimmed word hashes to a type name, then sets that type; otherwise fails with "type: unable to parse ('...')" |
| Deserialize.ExtractTypeOfName | src/deserialize_sequence.cc:73-98 | a type name surrounded by spaces sets that type |
| Deserialize.UnknownTypeExample | src/deserialize_sequence.cc:73-98 | " loop" is refused with the source's message |
| Deserialize.ExtractLabel | src/deserialize_sequence.cc:100-103 | the label becomes the unescaped trimmed text, trimmed again; the modification time is set |
| Deserialize.CollectNames | src/deserialize_sequence.cc:116-122 | succeeds iff every non-empty trimmed entry is a valid variable name; the set then holds exactly those names and the earlier ones |
| Deserialize.ExtractContextVariableNames | src/deserialize_sequence.cc:105-123 | no leading '[' and no ']' after it are refused with their messages. A bracketed list succeeds iff every non-blank trimmed entry between '[' and the first ']' is a valid name. The name set then becomes exactly those names, or stays as it was when every entry is blank. Nothing else changes |
| Deserialize.ExtractTime | src/deserialize_sequence.cc:125-135 | succeeds iff the time parser accepts the text, with its value; otherwise the source's message |
| Deserialize.ReadBoolAlpha | src/deserialize_sequence.cc:142-150 | true iff the text after stream whitespace starts with "true"; false iff it starts with "false" |
| Deserialize.ExtractDisabled | src/deserialize_sequence.cc:142-150 | succeeds iff a boolean word is read, and then sets the disabled flag to it |
| Deserialize.DisabledTrueExample | src/deserialize_sequence.cc:142-150 | " true" disables the step |
| Deserialize.DisabledFalseExample | src/deserialize_sequence.cc:142-150 | " false" enables the step |
| Deserialize.DisabledRefusedExample | src/deserialize_sequence.cc:142-150 | " yes" is refused |
| Deserialize.ToSigned | src/deserialize_sequence.cc:333 | the cast to `long long` keeps values up to LLONG_MAX and makes larger ones negative |
| Deserialize.ParseTimeout | src/deserialize_sequence.cc:322-334 | the trimmed text "infinite" in any case gives infinity. An unsigned decimal up to LLONG_MAX gives that many ms. A decimal above LLONG_MAX that fits 64 unsigned bits becomes negative and fails with "Negative timeout". A text that is no unsigned 64-bit decimal fails with "Cannot parse timeout" |
| Deserialize.EmptyTimeoutRefused | src/deserialize_sequence.cc:322-334 | "" is refused with the source's message |
| Deserialize.NegativeTimeoutRefused | src/deserialize_sequence.cc:322-334 | "-10" is refused |
| Deserialize.TimeoutWithUnitRefused | src/deserialize_sequence.cc:322-334 | "10s" is refused |
| Deserialize.TimeoutCountExample | src/deserialize_sequence.cc:322-334 | " 42 " is 42 ms |
| Deserialize.InfiniteTimeoutExample | src/deserialize_sequence.cc:322-334 | "INFINITE" is infinity |
| Deserialize.ParseTags | src/deserialize_sequence.cc:307-315 | succeeds when every whitespace-separated word makes a tag, with one tag per word in order; a failure carries the error of some word |
| Deserialize.CreateAll | src/deserialize_sequence.cc:311-313 | succeeds iff every word makes a tag, keeping the order |
| Deserialize.ParseTagsOfNames | src/deserialize_sequence.cc:307-315 | the names of tags joined with spaces parse back to the tags |
| Deserialize.ParseAutomationExample | src/deserialize_sequence.cc:317-320 | " true " enables automation |
| Deserialize.ParseAutomationRefusals | src/deserialize_sequence.cc:317-320 | "True" and "1" do not |
| Deserialize.ReadField | src/deserialize_sequence.cc:218-252 | a header line keeps the script, the keyword record, the level and the running flag, and records that the type or the label was read |
| Deserialize.ReadFieldChangesOnlyItsField | src/deserialize_sequence.cc:218-252 | each header keyword changes only its own step field; type, label and the disabled flag also set the modification time. Only the last-modification keyword changes the time read |
| Deserialize.ReadStepLine | src/deserialize_sequence.cc:193-253 | one line never changes the level or the running flag |
| Deserialize.ScriptLineKept | src/deserialize_sequence.cc:195-199 | once the script has started, every line is appended to it, keyword lines included |
| Deserialize.BlankLineSkipped | src/deserialize_sequence.cc:200-202 | a blank line before the script is skipped |
| Deserialize.DuplicateKeywordRefused | src/deserialize_sequence.cc:207-211 | a keyword whose hash was seen before is refused with "Encountered keyword '...' multiple times" |
| Deserialize.OtherLineStartsScript | src/deserialize_sequence.cc:250-252 | a line that is no header keyword starts the script |
| Deserialize.HeaderLineRecorded | src/deserialize_sequence.cc:212 | an accepted header line adds its hash to the seen keywords |
| Deserialize.FinishStep | src/deserialize_sequence.cc:261-279 | a missing type or label is refused with its message; the script loses its last newline; no modification time means `now` |
| Deserialize.ReadLinesFailureSticks | src/deserialize_sequence.cc:193-252 | once a line fails, the rest of the text is not read |
| Deserialize.ReadStep | src/deserialize_sequence.cc:182-282 | the loop over the lines computes the step the reader function specifies |
| Deserialize.ScriptKeepsEveryLine | src/deserialize_sequence.cc:195-199 | after the script starts, all remaining lines go into it, each followed by a newline |
| Deserialize.ReadStepIsFresh | src/deserialize_sequence.cc:191-279 | the result is a fresh step at level 0 that is not running |
| SequenceReader.Classify | src/deserialize_sequence.cc:161-174 | a line is a script line iff it does not start, after left-trimming, with one of the five parameter keywords |
| SequenceReader.LineError | src/deserialize_sequence.cc:161-174 | a script line never fails |
| SequenceReader.ApplyKeeps | src/deserialize_sequence.cc:161-174 | a parameter line sets only its field; a script line appends itself and a newline |
| SequenceReader.ReadLinesError | src/deserialize_sequence.cc:158-175 | reading fails iff some line fails, and then with the error of the first failing line |
| SequenceReader.ReadLinesScript | src/deserialize_sequence.cc:173-177 | without error, the script is the script lines, each followed by a newline |
| SequenceReader.ReadSequenceKeeps | src/deserialize_sequence.cc:154-180 | the uid, name and running flag are kept, and a valid label and sorted tags stay so |
| SequenceReader.ReadSequenceScript | src/deserialize_sequence.cc:154-180 | without error, the setup script is the script lines with trailing whitespace removed |
| SequenceReader.RunningKeepsScript | src/deserialize_sequence.cc:177 | a running sequence keeps its setup script and reports an error |
| SequenceReader.LaterLabelWins | src/deserialize_sequence.cc:165-166 | of two label lines the later one wins |
| SequenceReader.RunStops | src/deserialize_sequence.cc:158-175 | the first error stops the reading |
| SequenceReader.SetParameter | src/deserialize_sequence.cc:163-172 | a parameter line calls the matching setter of the sequence |
| SequenceReader.ReadLineInto | src/deserialize_sequence.cc:158-175 | one iteration of the loop computes the specified step of the reader |
| SequenceReader.ReadLinesInto | src/deserialize_sequence.cc:158-175 | the loop computes the specified run over all lines |
| SequenceReader.ReadSequence | src/deserialize_sequence.cc:154-180 | `operator>>` leaves the attributes and error the reader function specifies; the steps are unchanged and the class invariant is kept |
| Serialize.EscapeFilenameCharacters | src/serialize_sequence.cc:50-70 | the loop computes the escaping function |
| Serialize.EscapeFilenameSafe | src/serialize_sequence.cc:50-70 | the output has no byte below 32, no special character other than '$' as an escape prefix, and no '/' |
| Serialize.UnescapeEscapeFilename | src/serialize_sequence.cc:50-70 | for input without bytes up to 32 the escaping can be undone |
| Serialize.PlainFilenameKept | src/serialize_sequence.cc:50-70 | plain bytes are copied |
| Serialize.EscapeFilenameExample | src/serialize_sequence.cc:50-70 | "A/\"sequence\"$<again>" becomes "A$2f$22sequence$22$24$3cagain$3e" |
| Serialize.ExtractFilename | src/serialize_sequence.cc:74-80 | "step_" + the number zero-padded to `max_digits` + "_" + the type name + ".lua"; `extract_filename_step` in src/SequenceManager.cc is the same function |
| Serialize.MaxDigits | src/serialize_sequence.cc:142 | `max_digits` is at least 1 |
| Serialize.MaxDigitsSuffice | src/serialize_sequence.cc:142 | `size / 10 + 1` digits hold every number up to `size`, so padding gives all numbers the same width; `write_sequence_to_disk` in src/SequenceManager.cc uses the same width |
| Serialize.StepFilenamesOrdered | src/serialize_sequence.cc:74-80 | the file names of steps m < n sort in step order |
| Serialize.StepFilenameExample | src/serialize_sequence.cc:74-80 | a concrete step file name |
| Serialize.WriteStep | src/serialize_sequence.cc:92-125 | the stream output is the step's text |
| Serialize.StepTextLayout | src/serialize_sequence.cc:98-120 | the header lines in fixed order (type, label, variable names as a bracketed list, the two times, timeout, disabled), then the script and a newline |
| Serialize.NamesListRead | src/deserialize_sequence.cc:105-123 | the written name list reads back as the same set of names |
| Serialize.ParseTimeoutText | src/deserialize_sequence.cc:322-334 | the written timeout parses back to the same timeout |
| Serialize.HeaderPrefixRead | src/deserialize_sequence.cc:193-252 | reading the first k written header lines gives the reader state with those k fields set |
| Serialize.ReadWrittenStep | src/serialize_sequence.cc:92-125 | reading a written step gives back its type, label, names, both times, timeout, disabled flag and script; the level becomes 0 and a zero modification time becomes `now`. This holds when the label has no surrounding space, the times read back, and the script's first line is neither blank nor a header keyword |
| SequenceManagers.NameChar | src/SequenceManager.cc:236-241 | every byte is mapped to a valid name character |
| SequenceManagers.Truncated | src/SequenceManager.cc:232-233 | at most 64 bytes, a prefix of the label, and the whole label when it is short enough |
| SequenceManagers.MakeSequenceNameFromLabel | src/SequenceManager.cc:228-244 | the loop builds the sanitised name and constructs a sequence name from it |
| SequenceManagers.SanitizedShape | src/SequenceManager.cc:228-244 | the result has length min(|label|, 64); valid bytes keep their positions and the others become '_' |
| SequenceManagers.SanitizedPassesCheckAsWritten | src/SequenceManager.cc:228-244 | the sanitised name always passes the validity check as written, so the source never throws |
| SequenceManagers.SanitizedValidUnlessLeadingPeriod | src/SequenceManager.cc:228-244 | under the corrected check, construction succeeds iff the label is empty or does not start with '.' |
| SequenceManagers.SanitizedKeepsValidName | src/SequenceManager.cc:228-244 | a valid name is its own sanitised form |
| SequenceManagers.SanitizedIdempotent | src/SequenceManager.cc:228-244 | sanitising twice equals sanitising once |
| SequenceManagers.GlobEscapedAppend | src/SequenceManager.cc:347-366 | escaping is done character by character |
| SequenceManagers.EscapeGlob | src/SequenceManager.cc:341-372 | the loop prefixes * ? \ [ ] with a backslash, copies the rest, and appends "/*" unless the old libgit2 is used |
| SequenceManagers.GlobEscapedLiteral | src/SequenceManager.cc:341-372 | the escaped path has no unescaped special character and unescapes to the path |
| SequenceManagers.GlobPatternInjective | src/SequenceManager.cc:341-372 | different paths give different patterns |
| SequenceManagers.ContainsId | src/SequenceManager.cc:45-50 | true iff some sequence has the uid |
| SequenceManagers.FirstWithId | src/SequenceManager.cc:145-148 | the least index with the uid; none iff there is none |
| SequenceManagers.FindSequenceOnDisk | src/SequenceManager.cc:143-154 | succeeds iff the uid occurs, with the first entry carrying it; otherwise "Sequence not found: Unknown unique ID " and the uid |
| SequenceManagers.CreateUniqueId | src/SequenceManager.cc:130-141 | a returned uid is not contained and is the first fresh one drawn; failure after 10000 attempts iff every draw was contained |
| ExecuteSequence.Inc | src/execute_sequence.cc:53 | `++idx` on a 16-bit index: idx + 1, and 65535 wraps to 0 |
| ExecuteSequence.Dec | src/execute_sequence.cc:36 | `--idx` on a 16-bit index: idx - 1, and 0 wraps to 65535 |
| ExecuteSequence.NotFoundMessage | src/execute_sequence.cc:29-46 | the message starts with "[script] " and names level, start step and index |
| ExecuteSequence.FindNextToken | src/execute_sequence.cc:50-64 | the result is the smallest index after idx with the level and one of the types; failure iff there is none, with the source's message |
| ExecuteSequence.FindWhileEndToken | src/execute_sequence.cc:50-64 | the first END on the level after the WHILE, or the error naming 'while' |
| ExecuteSequence.FindNextTryCatchToken | src/execute_sequence.cc:67-81 | the first CATCH on the level after the TRY, or the error naming 'try' |
| ExecuteSequence.FindNextTryEndToken | src/execute_sequence.cc:84-98 | the first END on the level after the CATCH, or the error naming 'catch' |
| ExecuteSequence.FindNextElseIfOrElseOrEndToken | src/execute_sequence.cc:102-118 | the first ELSEIF, ELSE or END on the level, or the error naming 'if' |
| ExecuteSequence.FindNextElseOrEndToken | src/execute_sequence.cc:121-136 | the first ELSE or END on the level, or the error naming 'elseif' or 'else' |
| ExecuteSequence.FindNextIfEndToken | src/execute_sequence.cc:139-153 | the first END on the level, or the error naming the three clauses |
| ExecuteSequence.NextTokenWrapsAround | src/execute_sequence.cc:53 | a search from index 65535 wraps to 0 and finds the first token of the whole sequence |
| ExecuteSequence.PreviousScanLength | src/execute_sequence.cc:36 | the backward loop visits at most idx indices, all inside the sequence |
| ExecuteSequence.FindPreviousWhileToken | src/execute_sequence.cc:32-47 | the largest WHILE on the level among the visited indices below idx, or the error; the loop ends when the index wraps below 0 |
| ExecuteSequence.PreviousWhileBelow | src/execute_sequence.cc:32-47 | for idx within the sequence, the visited indices are exactly those below idx |
| ExecuteSequence.HasStep | src/execute_sequence.cc:156-165 | `has_step` is true iff idx < size; the second disjunct adds nothing |
| ExecuteSequence.TypeAt | src/execute_sequence.cc:161-164 | the type of the step at idx, or none past the end |

## Left out

- Lua execution is not modelled: `Step::execute`, the interpreter `Sequence::execute` with `execute_range`, `execute_sequence_impl`, the Lua hooks and LuaState. They are foreign calls into Lua and depend on clocks and message queues.
- Threads are not modelled: the executor, the locked queues and the communication channel. Their point is concurrency.
- Git and the filesystem are not modelled: storing, loading, renaming and removing sequences, `load_sequence_parameters`, and the file-writing parts of `serialize_sequence`. They are I/O.
- Clocks are values: each operation takes one `now` for all the modification times it sets, where the source reads the clock at every call.
- Time formatting and parsing (`put_time`, `strptime`) are the parameters `formatTime` and `parseTime`. The round trip assumes the parser reads back what the formatter writes.
- Stream failures of `operator>>` (the bad and fail bits) are not modelled; the text is the whole input.
- `std::getline` is modelled by `Deserialize.Lines`. A last line without a newline is read like any other.
- `check_for_control_characters` is not part of this model. It is taken as "no byte below 0x20 and no DEL", with its own message text.
- The float constructor and the float cast of `Timeout` are not modelled, because they use floating point.
- Timeouts.ToDuration: models only durations with non-negative integer counts, and `DurationT::max()` is the parameter `maxCount`. The quotient is exact: `duration_cast` into a finer tick computes in 64 bits and overflows there, for example for a finite timeout above about 292 years cast to nanoseconds.
- Timeouts.FromDuration: compares and rounds with unbounded integers. chrono compares in 64-bit ticks of the common period, so a count in a coarse tick that overflows once converted to that period (hours beyond about 2.5 * 10^12) is compared wrongly in the source and not modelled.
- The default constructor of `UniqueId` draws random numbers and is not modelled.
- SequenceManagers.CreateUniqueId: the random draws are the parameter `draw`. Only the contract of the retry loop is modelled.
- `ANCIENT_LIBGIT2` is the parameter `ancientLibgit2` of `EscapeGlob`.
- Serialize.ExtractFilename: the `int` step number is a `nat`. Negative numbers do not occur in the callers.
- Deserialize.ReadBoolAlpha: models `std::boolalpha` extraction as a prefix test after stream whitespace. The stream's locale handling is not modelled.
- Text.Split: gul's `split` on a regular expression in `extract_context_variable_names` is modelled as a split on the literal ",", with each entry trimmed.
- Serialize.ReadWrittenStep: requires a label without surrounding space (the reader trims it), times that the parser reads back, and a script whose first line is neither blank nor a header keyword. Other scripts are not expected to survive the round trip, and the source does not promise that they do.
- Steps.TypeName: the "unknown" result for values outside the eight enumerators cannot occur, because `StepType` has only those eight values.
- LuaDetails.GetMsSinceEpoch: signed overflow is undefined behaviour in C++. For t0 < 0 the model reads it as two's-complement wrap-around.
- The label ".." is escaped to "..". It names the parent directory, which only matters to the file-writing code that is not modelled.
- DEL (0x7f) is copied unchanged by `escape_filename_characters`, as in the source.
- `Sequence::set_disabled`, `throw_if_disabled`, `get_folder_name` and the plain getters are not modelled. They only read or set one field and state nothing beyond that.
- SequenceNames.Create, SequenceNames.FromString: follow the corrected check, which rejects a leading '.'. The stored name type carries the corrected rule, so the constructor as written, which accepts ".abcd", is shown only by `LeadingPeriodAcceptedAsWritten` on the check.
- SequenceManagers.MakeSequenceNameFromLabel: follows the corrected sequence-name check, which rejects a leading '.'. As written, the source accepts it (see Findings).
- `Sequence.Modify` keeps the modified step even when the modification throws. The model takes the outcome of the modification (`modified`, `thrown`) as parameters, because it is a user callback.

## Findings

| source | as written | input that shows it | evidently intended | confidence | as-written member | corrected member |
|---|---|---|---|---|---|---|
| src/SequenceName.cc:37-53 | `check_validity` checks only the length and the character set | ".abcd" is accepted | the header and the tests say that a name may not start with '.' | not executed; high, the check has no test for the first character | SequenceNames.LeadingPeriodAcceptedAsWritten | SequenceNames.CheckValidity |
| src/UniqueId.cc:48-60 | `from_string` parses a hex prefix and does not check that the whole string was consumed | "0x1" gives the ID 0 | only strings of 1 to 16 hex digits are IDs, as the header says | not executed; high | UniqueIds.HexPrefixAcceptedAsWritten | UniqueIds.FromString |
| src/lua_details.cc:138-151 | `LLONG_MAX - t0_ms` overflows for t0_ms < 0 | t0_ms = -1, dt_ms = 0 gives LLONG_MAX (read as wrap-around) | the saturated sum, -1 | not executed; low, it needs a clock before 1970, and the overflow is undefined behaviour | LuaDetails.NegativeStartOverflowsAsWritten | LuaDetails.SaturatedDeadlineIsSaturatedSum |
