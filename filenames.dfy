/** `make_bids_filename`: a BIDS file name built from up to eight entities,
    rendered as `key-value` tokens in the order the BIDS specification fixes,
    joined by `_`, followed by an optional suffix and placed under an
    optional prefix directory. */
module Filenames {
  import opened Values
  import opened Text
  import opened Validation
  import Paths

  /** The entity keys, in the order they appear in a file name. */
  const EntityKeys: seq<string> := ["sub", "ses", "task", "acq", "run", "proc", "space", "recording"]

  /** The keyword arguments of `make_bids_filename` that name entities. */
  datatype Entities = Entities(
    subject: Value, session: Value, task: Value, acquisition: Value,
    run: Value, processing: Value, recording: Value, space: Value)

  /** No key contains a delimiter, so a key cannot be confused with the
      separators around it. */
  lemma EntityKeysAreLabels()
    ensures forall i :: 0 <= i < |EntityKeys| ==> ValidLabel(EntityKeys[i])
  {
    forall i | 0 <= i < |EntityKeys| ensures ValidLabel(EntityKeys[i]) {
      if i == 0 { assert EntityKeys[i] == "sub"; }
      else if i == 1 { assert EntityKeys[i] == "ses"; }
      else if i == 2 { assert EntityKeys[i] == "task"; }
      else if i == 3 { assert EntityKeys[i] == "acq"; }
      else if i == 4 { assert EntityKeys[i] == "run"; }
      else if i == 5 { assert EntityKeys[i] == "proc"; }
      else if i == 6 { assert EntityKeys[i] == "space"; }
      else { assert EntityKeys[i] == "recording"; }
    }
  }

  /** `'{:02}'.format(n)`: the decimal digits, zero-filled to width two after
      the sign; wider numbers are not truncated. */
  function FormatRun(n: int): (s: string)
    ensures n >= 0 ==> |s| >= 2 && AllDigits(s) && ParseDecimal(s) == n
    ensures 0 <= n < 10 ==> |s| == 2 && s[0] == '0'
    ensures n >= 10 ==> s[0] != '0'
    ensures n < 0 ==> |s| >= 2 && s == "-" + Decimal(-n)
  {
    if n < 0 then "-" + Decimal(-n)
    else if n < 10 then
      ParseDecimalOfDecimal(n);
      ParseLeadingZero(Decimal(n));
      "0" + Decimal(n)
    else
      ParseDecimalOfDecimal(n);
      Decimal(n)
  }

  /** Lines 120-122: a `run` that is not a string and not `None` is
      formatted; formatting fails for a value that is not a number. */
  function NormalizeRun(run: Value): (r: Result<Value>)
    ensures r.Ok? <==> !run.OtherObject?
    ensures r.Ok? ==> IsStrOrNone(r.value)
    ensures IsStrOrNone(run) ==> r == Ok(run)
    ensures run.Int? && run.n >= 0 ==> r.Ok? && r.value.Str? && AllDigits(r.value.s) && ParseDecimal(r.value.s) == run.n
  {
    match run
    case Int(n) => Ok(Str(FormatRun(n)))
    case OtherObject => Err(UnformattableRun)
    case _ => Ok(run)
  }

  /** The entity values in key order, with `run` replaced. */
  function EntityValues(e: Entities, run: Value): (vs: seq<Value>)
    ensures |vs| == |EntityKeys|
  {
    [e.subject, e.session, e.task, e.acquisition, run, e.processing, e.space, e.recording]
  }

  /** The entity values in key order as the checks see them: an integer
      `run` already formatted. */
  function RenderedValues(e: Entities): seq<Value> {
    EntityValues(e, if e.run.Int? then Str(FormatRun(e.run.n)) else e.run)
  }

  predicate WellTyped(vs: seq<Value>) {
    forall i :: 0 <= i < |vs| ==> IsStrOrNone(vs[i])
  }

  predicate LabelsValidFrom(vs: seq<Value>, from: nat) {
    forall j :: from <= j < |vs| && vs[j].Str? ==> ValidLabel(vs[j].s)
  }

  /** The given entities from position `from` on, as (position in
      `EntityKeys`, value), in key order. */
  function Given(vals: seq<Value>, from: nat): (g: seq<(nat, string)>)
    requires from <= |vals|
    ensures forall k :: 0 <= k < |g| ==> from <= g[k].0 < |vals| && vals[g[k].0] == Str(g[k].1)
    decreases |vals| - from
  {
    if from == |vals| then []
    else if vals[from].Str? then [(from, vals[from].s)] + Given(vals, from + 1)
    else Given(vals, from + 1)
  }

  /** Positions in `Given` strictly increase: the given entities come out
      in the fixed key order, none twice. */
  lemma {:induction false} GivenOrdered(vals: seq<Value>, from: nat)
    requires from <= |vals|
    ensures forall k, l :: 0 <= k < l < |Given(vals, from)| ==> Given(vals, from)[k].0 < Given(vals, from)[l].0
    decreases |vals| - from
  {
    if from < |vals| {
      GivenOrdered(vals, from + 1);
      var rest := Given(vals, from + 1);
      if vals[from].Str? {
        var g := Given(vals, from);
        assert g == [(from, vals[from].s)] + rest;
        forall k, l | 0 <= k < l < |g| ensures g[k].0 < g[l].0 {
          assert g[l] == rest[l - 1];
          assert from + 1 <= rest[l - 1].0;
          if k > 0 {
            assert g[k] == rest[k - 1];
            assert rest[k - 1].0 < rest[l - 1].0;
          } else {
            assert g[k].0 == from;
          }
        }
      } else {
        assert Given(vals, from) == rest;
      }
    }
  }

  /** Every given entity is listed. */
  lemma {:induction false} GivenComplete(vals: seq<Value>, from: nat, j: nat)
    requires from <= j < |vals| && vals[j].Str?
    ensures exists k :: 0 <= k < |Given(vals, from)| && Given(vals, from)[k] == (j, vals[j].s)
    decreases |vals| - from
  {
    var g := Given(vals, from);
    if j == from {
      assert g == [(j, vals[j].s)] + Given(vals, from + 1);
      assert g[0] == (j, vals[j].s);
    } else {
      GivenComplete(vals, from + 1, j);
      var rest := Given(vals, from + 1);
      var k :| 0 <= k < |rest| && rest[k] == (j, vals[j].s);
      if vals[from].Str? {
        assert g == [(from, vals[from].s)] + rest;
        assert g[k + 1] == rest[k];
      } else {
        assert g == rest;
      }
    }
  }

  /** The loop of lines 129-133 from position `from` on: every given value
      is checked in key order, the first bad one aborting the build, and
      rendered as `key-value`. */
  function RenderTokens(vals: seq<Value>, from: nat): (r: Result<seq<string>>)
    requires |vals| == |EntityKeys| && from <= |vals|
    requires WellTyped(vals)
    ensures r.Ok? <==> LabelsValidFrom(vals, from)
    decreases |vals| - from
  {
    if from == |vals| then Ok([])
    else if vals[from].NoneValue? then RenderTokens(vals, from + 1)
    else
      match CheckKeyVal(EntityKeys[from], vals[from].s)
      case Err(err) => Err(err)
      case Ok(_) =>
        match RenderTokens(vals, from + 1)
        case Err(err) => Err(err)
        case Ok(rest) => Ok([EntityKeys[from] + "-" + vals[from].s] + rest)
  }

  /** The tokens are the given entities rendered `key-value`, one each, in
      key order. */
  lemma {:induction false} RenderTokensGiven(vals: seq<Value>, from: nat)
    requires |vals| == |EntityKeys| && from <= |vals|
    requires WellTyped(vals)
    requires RenderTokens(vals, from).Ok?
    ensures var ts := RenderTokens(vals, from).value;
      var g := Given(vals, from);
      |ts| == |g| && forall k :: 0 <= k < |g| ==> ts[k] == EntityKeys[g[k].0] + "-" + g[k].1
    decreases |vals| - from
  {
    if from < |vals| {
      RenderTokensGiven(vals, from + 1);
    }
  }

  /** A build that fails a delimiter check reports the first offending
      entity in key order. */
  lemma {:induction false} RenderTokensFirstError(vals: seq<Value>, from: nat)
    requires |vals| == |EntityKeys| && from <= |vals|
    requires WellTyped(vals)
    requires RenderTokens(vals, from).Err?
    ensures var err := RenderTokens(vals, from).error;
      exists j :: from <= j < |vals| && vals[j].Str? && !ValidLabel(vals[j].s)
        && err == ForbiddenCharacter(EntityKeys[j], vals[j].s)
        && LabelsValidBetween(vals, from, j)
    decreases |vals| - from
  {
    if from < |vals| && (vals[from].NoneValue? || ValidLabel(vals[from].s)) {
      RenderTokensFirstError(vals, from + 1);
    }
  }

  predicate LabelsValidBetween(vs: seq<Value>, from: nat, to: nat) {
    forall i :: from <= i < to && i < |vs| && vs[i].Str? ==> ValidLabel(vs[i].s)
  }

  /** `make_bids_filename`. */
  function MakeBidsFilename(e: Entities, suffix: Value, prefix: Value): (r: Result<string>)
    ensures r.Ok? <==> !e.run.OtherObject? && WellTyped(RenderedValues(e)) && LabelsValidFrom(RenderedValues(e), 0)
    ensures e.run.OtherObject? ==> r == Err(UnformattableRun) && r.error.Class() == TypeError
    ensures !e.run.OtherObject? && !WellTyped(RenderedValues(e)) ==> r == Err(NotStringOrNone)
    ensures !e.run.OtherObject? && WellTyped(RenderedValues(e)) && !LabelsValidFrom(RenderedValues(e), 0)
            ==> r.Err? && r.error.Class() == ValueError
                && exists j :: 0 <= j < |EntityKeys| && RenderedValues(e)[j].Str?
                     && !ValidLabel(RenderedValues(e)[j].s)
                     && r.error == ForbiddenCharacter(EntityKeys[j], RenderedValues(e)[j].s)
                     && LabelsValidBetween(RenderedValues(e), 0, j)
  {
    match NormalizeRun(e.run)
    case Err(err) => Err(err)
    case Ok(run) =>
      var vals := EntityValues(e, run);
      match CheckTypes(vals)
      case Err(err) => Err(err)
      case Ok(_) =>
        // Line 126 asks whether any KEY is a string; all of them are, so
        // the guard fires only for an empty key table.
        if |EntityKeys| == 0 then Err(NoParameterGiven)
        else
          match RenderTokens(vals, 0)
          case Err(err) =>
            assert vals == RenderedValues(e);
            RenderTokensFirstError(vals, 0);
            Err(err)
          case Ok(tokens) =>
            var parts := if suffix.Str? then tokens + [suffix.s] else tokens;
            var name := JoinWith(parts, "_");
            Ok(if prefix.Str? then Paths.Join(prefix.s, name) else name)
  }

  /** Splits an entity token at its first `-` into key and value. */
  function ParseToken(t: string): (string, string) {
    if |t| == 0 then ("", "")
    else if t[0] == '-' then ("", t[1..])
    else
      var kv := ParseToken(t[1..]);
      ([t[0]] + kv.0, kv.1)
  }

  lemma {:induction false} ParseTokenInverse(k: string, v: string)
    requires '-' !in k
    ensures ParseToken(k + "-" + v) == (k, v)
  {
    if |k| > 0 {
      assert (k + "-" + v)[1..] == k[1..] + "-" + v;
      ParseTokenInverse(k[1..], v);
      assert k == [k[0]] + k[1..];
    }
  }

  /** The name decodes back to what was given: split at `_`, it holds one
      token per given entity, in the fixed key order whatever order the
      arguments came in, each token splitting at its first `-` into the key
      and the value, and then the suffix. */
  lemma FilenameRoundTrip(e: Entities, suffix: Value, name: string)
    requires MakeBidsFilename(e, suffix, NoneValue) == Ok(name)
    requires suffix.Str? ==> '_' !in suffix.s
    requires Given(RenderedValues(e), 0) != [] || suffix.Str?
    ensures
      var g := Given(RenderedValues(e), 0);
      var parts := SplitOn(name, "_");
      && |parts| == |g| + (if suffix.Str? then 1 else 0)
      && (forall k :: 0 <= k < |g| ==> ParseToken(parts[k]) == (EntityKeys[g[k].0], g[k].1))
      && (suffix.Str? ==> parts[|g|] == suffix.s)
  {
    var vals := RenderedValues(e);
    var g := Given(vals, 0);
    var tokens := RenderTokens(vals, 0).value;
    RenderTokensGiven(vals, 0);
    var parts := if suffix.Str? then tokens + [suffix.s] else tokens;
    assert name == JoinWith(parts, "_");
    EntityKeysAreLabels();
    forall k | 0 <= k < |g|
      ensures '_' !in tokens[k] && ParseToken(tokens[k]) == (EntityKeys[g[k].0], g[k].1)
    {
      var key := EntityKeys[g[k].0];
      assert ValidLabel(key) && ValidLabel(g[k].1);
      assert '-' !in key && '_' !in key && '_' !in g[k].1;
      ParseTokenInverse(key, g[k].1);
    }
    SplitJoin(parts, '_');
  }

  /** The tokens of a subject and a run. */
  lemma TwoTokens(sub: string, run: string)
    requires ValidLabel(sub) && ValidLabel(run)
    ensures RenderTokens([Str(sub), NoneValue, NoneValue, NoneValue, Str(run), NoneValue, NoneValue, NoneValue], 0)
         == Ok(["sub-" + sub, "run-" + run])
  {
    var vals := [Str(sub), NoneValue, NoneValue, NoneValue, Str(run), NoneValue, NoneValue, NoneValue];
    assert EntityKeys[0] == "sub" && EntityKeys[4] == "run";
    var tRun, tSub := EntityKeys[4] + "-" + run, EntityKeys[0] + "-" + sub;
    assert RenderTokens(vals, 8) == Ok([]);
    assert RenderTokens(vals, 7) == Ok([]);
    assert RenderTokens(vals, 6) == Ok([]);
    assert RenderTokens(vals, 5) == Ok([]);
    assert CheckKeyVal(EntityKeys[4], run).Ok?;
    assert [tRun] + [] == [tRun];
    assert RenderTokens(vals, 4) == Ok([tRun]);
    assert RenderTokens(vals, 3) == Ok([tRun]);
    assert RenderTokens(vals, 2) == Ok([tRun]);
    assert RenderTokens(vals, 1) == Ok([tRun]);
    assert CheckKeyVal(EntityKeys[0], sub).Ok?;
    assert [tSub] + [tRun] == [tSub, tRun];
    assert "sub" + "-" == "sub-" && "run" + "-" == "run-";
  }

  /** A name made of a subject and a run only. */
  lemma SubjectAndRun(sub: string, run: string)
    requires ValidLabel(sub) && ValidLabel(run)
    ensures MakeBidsFilename(
      Entities(Str(sub), NoneValue, NoneValue, NoneValue, Str(run), NoneValue, NoneValue, NoneValue),
      NoneValue, NoneValue) == Ok("sub-" + sub + "_" + ("run-" + run))
  {
    var e := Entities(Str(sub), NoneValue, NoneValue, NoneValue, Str(run), NoneValue, NoneValue, NoneValue);
    assert RenderedValues(e) == [Str(sub), NoneValue, NoneValue, NoneValue, Str(run), NoneValue, NoneValue, NoneValue];
    TwoTokens(sub, run);
    NameFromTokens(e, NoneValue, NoneValue, ["sub-" + sub, "run-" + run]);
    assert ["sub-" + sub, "run-" + run][1..] == ["run-" + run];
  }

  /** An integer `run` behaves exactly as the string `'{:02}'` makes of it. */
  lemma IntRunIsFormatted(e: Entities, suffix: Value, prefix: Value)
    requires e.run.Int?
    ensures MakeBidsFilename(e, suffix, prefix) == MakeBidsFilename(e.(run := Str(FormatRun(e.run.n))), suffix, prefix)
  {
    var f := e.(run := Str(FormatRun(e.run.n)));
    assert NormalizeRun(e.run) == NormalizeRun(f.run) == Ok(f.run);
    assert EntityValues(e, f.run) == EntityValues(f, f.run);
  }

  /** `'{:02}'` pads 7 to two digits and leaves 123 alone. */
  lemma FormatRunExamples()
    ensures FormatRun(7) == "07" && FormatRun(123) == "123"
  {
    assert Decimal(7) == "7";
    assert Decimal(12) == Decimal(1) + "2";
    assert Decimal(123) == Decimal(12) + "3";
  }

  /** An integer `run` is zero-padded: 7 gives `run-07`. */
  lemma IntRunPadded(sub: string)
    requires ValidLabel(sub)
    ensures MakeBidsFilename(Entities(Str(sub), NoneValue, NoneValue, NoneValue, Int(7), NoneValue, NoneValue, NoneValue), NoneValue, NoneValue)
      == Ok("sub-" + sub + "_run-07")
  {
    FormatRunExamples();
    var asInt := Entities(Str(sub), NoneValue, NoneValue, NoneValue, Int(7), NoneValue, NoneValue, NoneValue);
    IntRunIsFormatted(asInt, NoneValue, NoneValue);
    assert asInt.(run := Str(FormatRun(7)))
      == Entities(Str(sub), NoneValue, NoneValue, NoneValue, Str("07"), NoneValue, NoneValue, NoneValue);
    SubjectAndRun(sub, "07");
    assert "sub-" + sub + "_" + ("run-" + "07") == "sub-" + sub + "_run-07";
  }

  /** A string `run` is not re-padded: "7" gives `run-7`. */
  lemma StringRunKept(sub: string)
    requires ValidLabel(sub)
    ensures MakeBidsFilename(Entities(Str(sub), NoneValue, NoneValue, NoneValue, Str("7"), NoneValue, NoneValue, NoneValue), NoneValue, NoneValue)
      == Ok("sub-" + sub + "_run-7")
  {
    SubjectAndRun(sub, "7");
    assert "sub-" + sub + "_" + ("run-" + "7") == "sub-" + sub + "_run-7";
  }

  /** A negative integer `run` is formatted with its sign, so the call
      always fails: with the type error when another value is ill-typed,
      and otherwise, when no earlier entity is rejected first, with the
      delimiter error naming `run` and its signed digits. */
  lemma NegativeRunRejected(e: Entities, suffix: Value, prefix: Value)
    requires e.run.Int? && e.run.n < 0
    ensures MakeBidsFilename(e, suffix, prefix).Err?
    ensures !WellTyped(RenderedValues(e)) ==> MakeBidsFilename(e, suffix, prefix) == Err(NotStringOrNone)
    ensures WellTyped(RenderedValues(e)) && LabelsValidBetween(RenderedValues(e), 0, 4)
            ==> MakeBidsFilename(e, suffix, prefix) == Err(ForbiddenCharacter("run", "-" + Decimal(-e.run.n)))
  {
    var vs := RenderedValues(e);
    assert vs[4] == Str(FormatRun(e.run.n));
    assert vs[4].s[0] == '-';
    assert !ValidLabel(vs[4].s);
    if WellTyped(vs) && LabelsValidBetween(vs, 0, 4) {
      var r := MakeBidsFilename(e, suffix, prefix);
      var j :| 0 <= j < |EntityKeys| && vs[j].Str? && !ValidLabel(vs[j].s)
               && r.error == ForbiddenCharacter(EntityKeys[j], vs[j].s)
               && LabelsValidBetween(vs, 0, j);
      assert j == 4;
    }
  }

  /** The tokens of a subject, a session and a task. */
  lemma ThreeTokens(sub: string, ses: string, task: string)
    requires ValidLabel(sub) && ValidLabel(ses) && ValidLabel(task)
    ensures RenderTokens([Str(sub), Str(ses), Str(task), NoneValue, NoneValue, NoneValue, NoneValue, NoneValue], 0)
         == Ok(["sub-" + sub, "ses-" + ses, "task-" + task])
  {
    var vals := [Str(sub), Str(ses), Str(task), NoneValue, NoneValue, NoneValue, NoneValue, NoneValue];
    assert EntityKeys[0] == "sub" && EntityKeys[1] == "ses" && EntityKeys[2] == "task";
    var t0, t1, t2 := EntityKeys[0] + "-" + sub, EntityKeys[1] + "-" + ses, EntityKeys[2] + "-" + task;
    assert RenderTokens(vals, 8) == Ok([]);
    assert RenderTokens(vals, 7) == Ok([]);
    assert RenderTokens(vals, 6) == Ok([]);
    assert RenderTokens(vals, 5) == Ok([]);
    assert RenderTokens(vals, 4) == Ok([]);
    assert RenderTokens(vals, 3) == Ok([]);
    assert CheckKeyVal(EntityKeys[2], task).Ok?;
    assert [t2] + [] == [t2];
    assert RenderTokens(vals, 2) == Ok([t2]);
    assert CheckKeyVal(EntityKeys[1], ses).Ok?;
    assert [t1] + [t2] == [t1, t2];
    assert RenderTokens(vals, 1) == Ok([t1, t2]);
    assert CheckKeyVal(EntityKeys[0], sub).Ok?;
    assert [t0] + [t1, t2] == [t0, t1, t2];
    assert "sub" + "-" == "sub-" && "ses" + "-" == "ses-" && "task" + "-" == "task-";
  }

  /** Once the tokens are built, the name is their `_`-join, then the
      suffix, placed under the prefix. */
  lemma NameFromTokens(e: Entities, suffix: Value, prefix: Value, tokens: seq<string>)
    requires !e.run.OtherObject? && WellTyped(RenderedValues(e))
    requires RenderTokens(RenderedValues(e), 0) == Ok(tokens)
    ensures MakeBidsFilename(e, suffix, prefix)
         == Ok(var name := JoinWith(if suffix.Str? then tokens + [suffix.s] else tokens, "_");
               if prefix.Str? then Paths.Join(prefix.s, name) else name)
  {
    assert NormalizeRun(e.run).Ok?;
    assert EntityValues(e, NormalizeRun(e.run).value) == RenderedValues(e);
  }

  lemma JoinFour(a: string, b: string, c: string, d: string)
    ensures JoinWith([a, b, c] + [d], "_") == a + "_" + b + "_" + c + "_" + d
  {
    var parts := [a, b, c] + [d];
    assert parts[1..] == [b, c, d] && parts[1..][1..] == [c, d] && parts[1..][1..][1..] == [d];
    assert JoinWith([c, d], "_") == c + "_" + d;
    assert JoinWith([b, c, d], "_") == b + "_" + (c + "_" + d);
  }

  /** A name made of a subject, a session, a task and a suffix. */
  lemma SubjectSessionTask(sub: string, ses: string, task: string, suffix: string)
    requires ValidLabel(sub) && ValidLabel(ses) && ValidLabel(task)
    ensures MakeBidsFilename(
      Entities(Str(sub), Str(ses), Str(task), NoneValue, NoneValue, NoneValue, NoneValue, NoneValue),
      Str(suffix), NoneValue) == Ok("sub-" + sub + "_" + ("ses-" + ses) + "_" + ("task-" + task) + "_" + suffix)
  {
    var e := Entities(Str(sub), Str(ses), Str(task), NoneValue, NoneValue, NoneValue, NoneValue, NoneValue);
    var vals := [Str(sub), Str(ses), Str(task), NoneValue, NoneValue, NoneValue, NoneValue, NoneValue];
    assert RenderedValues(e) == vals;
    ThreeTokens(sub, ses, task);
    var t0, t1, t2 := "sub-" + sub, "ses-" + ses, "task-" + task;
    NameFromTokens(e, Str(suffix), NoneValue, [t0, t1, t2]);
    JoinFour(t0, t1, t2, suffix);
  }

  /** The docstring's name, spelled out. The literals are parameters pinned
      by `requires`, so that the verifier does not unfold them
      character by character. */
  lemma DocstringName(sub: string, ses: string, task: string, suffix: string)
    requires sub == "test" && ses == "two" && task == "mytask" && suffix == "data.csv"
    ensures "sub-" + sub + "_" + ("ses-" + ses) + "_" + ("task-" + task) + "_" + suffix
         == "sub-test_ses-two_task-mytask_data.csv"
  {
    var a := "sub-" + sub + "_";
    assert a == "sub-test_";
    var b := a + ("ses-" + ses) + "_";
    assert b == "sub-test_ses-two_";
    var c := b + ("task-" + task) + "_";
    assert c == "sub-test_ses-two_task-mytask_";
  }

  /** The example of the docstring, lines 108-109. The literals are
      parameters pinned by `requires`, so that the verifier does not
      unfold them character by character. */
  lemma DocstringExample(sub: string, ses: string, task: string, suffix: string)
    requires sub == "test" && ses == "two" && task == "mytask" && suffix == "data.csv"
    ensures MakeBidsFilename(
      Entities(Str(sub), Str(ses), Str(task), NoneValue, NoneValue, NoneValue, NoneValue, NoneValue),
      Str(suffix), NoneValue) == Ok("sub-test_ses-two_task-mytask_data.csv")
  {
    SubjectSessionTask(sub, ses, task, suffix);
    DocstringName(sub, ses, task, suffix);
  }

  /** The guard of line 126 never fires: with no entity and no suffix the
      name is empty, and a prefix alone gives the prefix with a `/`. */
  lemma NothingGiven(prefix: string)
    ensures
      var none := Entities(NoneValue, NoneValue, NoneValue, NoneValue, NoneValue, NoneValue, NoneValue, NoneValue);
      && MakeBidsFilename(none, NoneValue, NoneValue) == Ok("")
      && MakeBidsFilename(none, NoneValue, Str(prefix)) == Ok(Paths.Join(prefix, ""))
  {
    var none := Entities(NoneValue, NoneValue, NoneValue, NoneValue, NoneValue, NoneValue, NoneValue, NoneValue);
    var vals := RenderedValues(none);
    assert forall i :: 0 <= i < |vals| ==> vals[i] == NoneValue;
    NoTokens(vals, 0);
    NameFromTokens(none, NoneValue, NoneValue, []);
    NameFromTokens(none, NoneValue, Str(prefix), []);
  }

  /** Values that are all `None` render no token. */
  lemma {:induction false} NoTokens(vals: seq<Value>, from: nat)
    requires |vals| == |EntityKeys| && from <= |vals|
    requires forall i :: 0 <= i < |vals| ==> vals[i] == NoneValue
    ensures WellTyped(vals) && RenderTokens(vals, from) == Ok([])
    decreases |vals| - from
  {
    if from < |vals| {
      NoTokens(vals, from + 1);
    }
  }

  /** A string prefix is path-joined in front of the name; a suffix or prefix
      that is neither a string nor `None` is silently ignored. */
  lemma PrefixAndSuffix(e: Entities, suffix: Value, prefix: Value)
    ensures
      var bare := MakeBidsFilename(e, if suffix.Str? then suffix else NoneValue, NoneValue);
      && (bare.Ok? <==> MakeBidsFilename(e, suffix, prefix).Ok?)
      && (bare.Ok? ==> MakeBidsFilename(e, suffix, prefix).value
                       == if prefix.Str? then Paths.Join(prefix.s, bare.value) else bare.value)
  {
  }
}
