/** writers/basewriter.js: the check every writer constructor starts with,
    the per-entry check every writer applies before writing, and the batch
    result `(err, ids_pass, ids_fail)` that every writer hands back. */
module BaseWriter {
  import opened Js
  import opened Outcomes
  import opened Points
  import Config

  /** The BaseWriter constructor: a null or undefined output configuration
      throws. */
  function CheckWriterConfig(config: Option<Config.OutputConfig>): (r: Outcome)
    ensures r == Pass <==> config.Some?
    ensures r.Fail? ==> r.error == ConfigurationError
  {
    if config.None? then Fail(ConfigurationError) else Pass
  }

  /** `BaseWriter.ValidateEntry(entry)`. `None` is a null or undefined entry.
      An `output_config` that is not a string has no `trim` and throws a
      TypeError; `trim() === ""` is `IsBlank` (see `Js.TrimEmptyIffBlank`). */
  function ValidateEntry(entry: Option<Entry>): (r: Result<bool>)
    ensures r.Ok? <==> entry.Some? && entry.value.outputConfig.Str? && !IsBlank(entry.value.outputConfig.s)
    ensures r.Ok? ==> r.value
    ensures entry.None? ==> r == Err(ConfigurationError)
    ensures entry.Some? && IsNullish(entry.value.outputConfig) ==> r == Err(ConfigurationError)
    ensures entry.Some? && entry.value.outputConfig.Str? && IsBlank(entry.value.outputConfig.s) ==>
      r == Err(ConfigurationError)
  {
    if entry.None? then Err(ConfigurationError)
    else
      var oc := entry.value.outputConfig;
      if IsNullish(oc) then Err(ConfigurationError)
      else if !oc.Str? then Err(TypeError)
      else if IsBlank(oc.s) then Err(ConfigurationError)
      else Ok(true)
  }

  /** Entry `k` is the first of `docs` that ValidateEntry refuses, with `e`. */
  predicate FirstRefused(docs: seq<Entry>, k: int, e: Error) {
    && 0 <= k < |docs|
    && ValidateEntry(Some(docs[k])) == Err(e)
    && forall i :: 0 <= i < k ==> ValidateEntry(Some(docs[i])).Ok?
  }

  /** `BaseWriter.ValidateEntry` applied to the entries of a batch in order,
      as the writers do: the first entry that fails decides the exception. */
  function ValidateEntries(docs: seq<Entry>): (r: Outcome)
    ensures r == Pass <==> forall k :: 0 <= k < |docs| ==> ValidateEntry(Some(docs[k])).Ok?
    ensures r.Fail? ==> exists k :: FirstRefused(docs, k, r.error)
  {
    if docs == [] then Pass
    else
      match ValidateEntry(Some(docs[0]))
      case Err(e) => assert FirstRefused(docs, 0, e); Fail(e)
      case Ok(_) =>
        var rest := ValidateEntries(docs[1..]);
        if rest.Fail? then
          assert exists k :: FirstRefused(docs, k, rest.error) by {
            var k :| FirstRefused(docs[1..], k, rest.error);
            assert ValidateEntry(Some(docs[k + 1])) == Err(rest.error);
            forall i | 0 <= i < k + 1 ensures ValidateEntry(Some(docs[i])).Ok? {
              if i > 0 { assert docs[i] == docs[1..][i - 1]; }
            }
            assert FirstRefused(docs, k + 1, rest.error);
          }
          rest
        else
          assert forall k :: 0 <= k < |docs| ==> ValidateEntry(Some(docs[k])).Ok? by {
            forall k | 0 <= k < |docs| ensures ValidateEntry(Some(docs[k])).Ok? {
              if k > 0 { assert docs[k] == docs[1..][k - 1]; }
            }
          }
          rest
  }

  /** The first refused entry of a batch decides the error of the batch. */
  lemma FirstRefusedDecides(docs: seq<Entry>, k: int, e: Error)
    requires FirstRefused(docs, k, e)
    ensures ValidateEntries(docs) == Fail(e)
  {
    var r := ValidateEntries(docs);
    assert r.Fail?;
    var k' :| FirstRefused(docs, k', r.error);
    assert k' == k;
  }

  /** `" test "` is accepted, `" "` is refused. */
  lemma ValidateEntryExamples(e: Entry)
    ensures ValidateEntry(Some(e.(outputConfig := Str(" test ")))) == Ok(true)
    ensures ValidateEntry(Some(e.(outputConfig := Str(" ")))) == Err(ConfigurationError)
  {
    assert !IsJsWhitespace(" test "[1]);
  }

  /** What a writer hands back through `callback(err, ids_pass, ids_fail)`;
      `err` is whether the error argument is set. */
  datatype WriteOutcome = WriteOutcome(err: bool, pass: seq<Prim>, fail: seq<Prim>)

  /** The ids whose flag equals `want`, in their original order. */
  function Select(ids: seq<Prim>, flags: seq<bool>, want: bool): (r: seq<Prim>)
    requires |ids| == |flags|
    ensures |r| <= |ids|
    ensures forall j :: 0 <= j < |r| ==> r[j] in ids
  {
    if ids == [] then []
    else
      var n := |ids| - 1;
      Select(ids[..n], flags[..n], want) + (if flags[n] == want then [ids[n]] else [])
  }

  /** Every id goes to exactly one side of a partition by flags. */
  lemma {:induction false} SelectPartition(ids: seq<Prim>, flags: seq<bool>)
    requires |ids| == |flags|
    ensures multiset(Select(ids, flags, true)) + multiset(Select(ids, flags, false)) == multiset(ids)
    ensures |Select(ids, flags, true)| + |Select(ids, flags, false)| == |ids|
  {
    if ids != [] {
      var n := |ids| - 1;
      SelectPartition(ids[..n], flags[..n]);
      SelectStep(ids, flags);
    }
  }

  lemma SelectStep(ids: seq<Prim>, flags: seq<bool>)
    requires |ids| == |flags| && ids != []
    requires var n := |ids| - 1;
      && multiset(Select(ids[..n], flags[..n], true)) + multiset(Select(ids[..n], flags[..n], false)) == multiset(ids[..n])
      && |Select(ids[..n], flags[..n], true)| + |Select(ids[..n], flags[..n], false)| == n
    ensures multiset(Select(ids, flags, true)) + multiset(Select(ids, flags, false)) == multiset(ids)
    ensures |Select(ids, flags, true)| + |Select(ids, flags, false)| == |ids|
  {
    var n := |ids| - 1;
    var front, last := ids[..n], [ids[n]];
    var t, f := Select(front, flags[..n], true), Select(front, flags[..n], false);
    var yes, no := Select(ids, flags, true), Select(ids, flags, false);
    assert (yes == t + last && no == f) || (yes == t && no == f + last);
    assert ids == front + last;
    SplitOffLast(ids, front, last, yes, no, t, f);
  }

  /** Adding the last id to one side of a partition of the others. */
  lemma SplitOffLast(ids: seq<Prim>, front: seq<Prim>, last: seq<Prim>,
                     yes: seq<Prim>, no: seq<Prim>, t: seq<Prim>, f: seq<Prim>)
    requires ids == front + last
    requires (yes == t + last && no == f) || (yes == t && no == f + last)
    requires multiset(t) + multiset(f) == multiset(front) && |t| + |f| == |front|
    ensures multiset(yes) + multiset(no) == multiset(ids) && |yes| + |no| == |ids|
  {
  }

  /** With every flag equal to `want`, the selection is the whole sequence. */
  lemma {:induction false} SelectUniform(ids: seq<Prim>, flags: seq<bool>, want: bool)
    requires |ids| == |flags|
    requires forall k :: 0 <= k < |flags| ==> flags[k] == want
    ensures Select(ids, flags, want) == ids
    ensures Select(ids, flags, !want) == []
  {
    if ids != [] {
      var n := |ids| - 1;
      SelectUniform(ids[..n], flags[..n], want);
      assert ids == ids[..n] + [ids[n]];
    }
  }

  /** An id is selected only if it is one of the ids with that flag. */
  lemma {:induction false} SelectMembers(ids: seq<Prim>, flags: seq<bool>, want: bool, x: Prim)
    requires |ids| == |flags|
    ensures x in Select(ids, flags, want) <==> exists k :: 0 <= k < |ids| && ids[k] == x && flags[k] == want
  {
    if ids != [] {
      var n := |ids| - 1;
      SelectMembers(ids[..n], flags[..n], want, x);
      SelectMembersStep(ids, flags, want, x);
    }
  }

  lemma SelectMembersStep(ids: seq<Prim>, flags: seq<bool>, want: bool, x: Prim)
    requires |ids| == |flags| && ids != []
    requires var n := |ids| - 1;
      x in Select(ids[..n], flags[..n], want) <==> exists k :: 0 <= k < n && ids[..n][k] == x && flags[..n][k] == want
    ensures x in Select(ids, flags, want) <==> exists k :: 0 <= k < |ids| && ids[k] == x && flags[k] == want
  {
    var n := |ids| - 1;
    if x in Select(ids, flags, want) && x !in Select(ids[..n], flags[..n], want) {
      assert ids[n] == x && flags[n] == want;
    }
    if exists k :: 0 <= k < |ids| && ids[k] == x && flags[k] == want {
      var k :| 0 <= k < |ids| && ids[k] == x && flags[k] == want;
      if k < n {
        assert ids[..n][k] == x && flags[..n][k] == want;
      }
    }
  }

  /** Nothing is selected exactly when no flag equals `want`. */
  lemma {:induction false} SelectEmptyIff(ids: seq<Prim>, flags: seq<bool>, want: bool)
    requires |ids| == |flags|
    ensures Select(ids, flags, want) == [] <==> forall k :: 0 <= k < |flags| ==> flags[k] != want
  {
    if ids != [] {
      var n := |ids| - 1;
      SelectEmptyIff(ids[..n], flags[..n], want);
      assert forall k :: 0 <= k < n ==> flags[..n][k] == flags[k];
    }
  }
}
