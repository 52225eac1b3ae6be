/** `make_bids_folders`: the relative path `sub-<subject>[/ses-<session>][/<kind>]`
    of a folder inside a BIDS dataset, optionally placed under a root, and
    the request to create it. */
module Folders {
  import opened Values
  import opened Text
  import opened Validation
  import Paths

  /** `'%s' % v` for a value that passed `_check_types`. */
  function Render(v: Value): (s: string)
    requires IsStrOrNone(v)
    ensures v.Str? ==> s == v.s
    ensures v.NoneValue? ==> s == "None"
  {
    if v.Str? then v.s else "None"
  }

  /** A call of `_mkdir_p(path, overwrite=overwrite)`. */
  datatype MkdirRequest = MkdirRequest(path: string, overwrite: bool)

  /** What a call returns (or raises) and which directories it asks for. */
  datatype FolderResult = FolderResult(path: Result<string>, mkdir: seq<MkdirRequest>)

  /** The list `path` of lines 189-193: the subject always, the session and
      the kind only when they are strings. */
  function FolderSegments(subject: Value, session: Value, kind: Value): (segs: seq<string>)
    requires IsStrOrNone(subject)
    ensures |segs| == 1 + (if session.Str? then 1 else 0) + (if kind.Str? then 1 else 0)
    ensures segs[0] == "sub-" + Render(subject)
    ensures session.Str? ==> segs[1] == "ses-" + session.s
    ensures kind.Str? ==> segs[|segs| - 1] == kind.s
  {
    ["sub-" + Render(subject)]
      + (if session.Str? then ["ses-" + session.s] else [])
      + (if kind.Str? then [kind.s] else [])
  }

  /** `os.path.join(*segs)`: the segments joined from the left. */
  function JoinAll(segs: seq<string>): (p: string)
    requires |segs| >= 1
    ensures |segs[|segs| - 1]| <= |p|
  {
    if |segs| == 1 then segs[0]
    else Paths.Join(JoinAll(segs[..|segs| - 1]), segs[|segs| - 1])
  }

  /** The joined path ends with the last segment. */
  lemma JoinAllEndsWithLast(segs: seq<string>)
    requires |segs| >= 1
    ensures var p := JoinAll(segs); p[|p| - |segs[|segs| - 1]|..] == segs[|segs| - 1]
  {
    var last := segs[|segs| - 1];
    if |segs| > 1 {
      var a := JoinAll(segs[..|segs| - 1]);
      if a == "" || a[|a| - 1] == '/' {
        assert (a + last)[|a + last| - |last|..] == last;
      } else {
        assert (a + "/" + last)[|a + "/" + last| - |last|..] == last;
      }
    }
  }

  predicate AllTyped(subject: Value, session: Value, kind: Value, root: Value) {
    IsStrOrNone(subject) && IsStrOrNone(session) && IsStrOrNone(kind) && IsStrOrNone(root)
  }

  /** `make_bids_folders`. All four values are type-checked, then a session
      is delimiter-checked; only then is a path built, and a directory is
      requested exactly when `make_dir` is set and no check failed. The
      subject and the kind are not delimiter-checked. */
  function MakeBidsFolders(subject: Value, session: Value, kind: Value, root: Value,
                           makeDir: bool, overwrite: bool): (r: FolderResult)
    ensures r.path.Ok? <==> AllTyped(subject, session, kind, root) && (session.Str? ==> ValidLabel(session.s))
    ensures !AllTyped(subject, session, kind, root) ==> r.path == Err(NotStringOrNone)
    ensures AllTyped(subject, session, kind, root) && session.Str? && !ValidLabel(session.s)
            ==> r.path == Err(ForbiddenCharacter("ses", session.s)) && r.path.error.Class() == ValueError
    ensures r.mkdir == if makeDir && r.path.Ok? then [MkdirRequest(r.path.value, overwrite)] else []
  {
    match CheckTypes([subject, kind, session, root])
    case Err(err) => FolderResult(Err(err), [])
    case Ok(_) =>
      assert [subject, kind, session, root][0] == subject && [subject, kind, session, root][1] == kind;
      assert [subject, kind, session, root][2] == session && [subject, kind, session, root][3] == root;
      var checked := if session.NoneValue? then Ok(()) else
        match CheckKeyVal("ses", session.s)
        case Err(err) => Err(err)
        case Ok(_) => Ok(());
      match checked
      case Err(err) => FolderResult(Err(err), [])
      case Ok(_) =>
        var rel := JoinAll(FolderSegments(subject, session, kind));
        var path := if root.Str? then Paths.Join(root.s, rel) else rel;
        FolderResult(Ok(path), if makeDir then [MkdirRequest(path, overwrite)] else [])
  }

  /** The path of an accepted call: the segments joined, under the root
      when there is one. */
  lemma FolderPath(subject: Value, session: Value, kind: Value, root: Value, makeDir: bool, overwrite: bool)
    requires MakeBidsFolders(subject, session, kind, root, makeDir, overwrite).path.Ok?
    ensures IsStrOrNone(subject)
    ensures MakeBidsFolders(subject, session, kind, root, makeDir, overwrite).path.value
         == (if root.Str? then Paths.Join(root.s, JoinAll(FolderSegments(subject, session, kind)))
             else JoinAll(FolderSegments(subject, session, kind)))
  {
  }

  /** A string that ends with a non-empty text without `/` does not end
      with a `/`. */
  lemma EndsWithoutSlash(a: string, x: string)
    requires x != "" && '/' !in x && |x| <= |a| && a[|a| - |x|..] == x
    ensures a != "" && a[|a| - 1] != '/'
  {
    assert a[|a| - 1] == x[|x| - 1];
  }

  /** Joining one more segment without `/` adds it as the last segment. */
  lemma JoinOneMore(a: string, last: string)
    requires a != "" && a[|a| - 1] != '/' && '/' !in last
    ensures SplitOn(Paths.Join(a, last), "/") == SplitOn(a, "/") + [last]
  {
    SplitWithoutSeparator(last, '/');
    Paths.JoinSegments(a, last);
  }

  /** Joining segments none of which holds a `/`, all but the last not
      empty, gives a path whose `/`-segments are exactly those segments. */
  lemma {:induction false} JoinAllSegments(segs: seq<string>)
    requires |segs| >= 1
    requires forall i :: 0 <= i < |segs| ==> '/' !in segs[i]
    requires forall i :: 0 <= i < |segs| - 1 ==> segs[i] != ""
    ensures SplitOn(JoinAll(segs), "/") == segs
  {
    if |segs| == 1 {
      SplitWithoutSeparator(segs[0], '/');
    } else {
      var init := segs[..|segs| - 1];
      var last := segs[|segs| - 1];
      JoinAllSegments(init);
      JoinAllEndsWithLast(init);
      EndsWithoutSlash(JoinAll(init), init[|init| - 1]);
      JoinOneMore(JoinAll(init), last);
      assert init + [last] == segs;
    }
  }

  /** The path's `/`-segments are the root's, then `sub-<subject>`, then
      `ses-<session>` and the kind when given: each argument is one level
      of the hierarchy, provided the subject and the kind hold no `/` and
      the root is not empty and has no trailing `/`. */
  lemma PathSegments(subject: Value, session: Value, kind: Value, root: Value, makeDir: bool, overwrite: bool)
    requires MakeBidsFolders(subject, session, kind, root, makeDir, overwrite).path.Ok?
    requires subject.Str? ==> '/' !in subject.s
    requires kind.Str? ==> '/' !in kind.s
    requires root.Str? ==> root.s != "" && root.s[|root.s| - 1] != '/'
    ensures
      SplitOn(MakeBidsFolders(subject, session, kind, root, makeDir, overwrite).path.value, "/")
      == (if root.Str? then SplitOn(root.s, "/") else []) + FolderSegments(subject, session, kind)
  {
    FolderPath(subject, session, kind, root, makeDir, overwrite);
    var segs := FolderSegments(subject, session, kind);
    forall i | 0 <= i < |segs| ensures '/' !in segs[i] {
      if i == 0 {
        assert "sub-" + Render(subject) == "sub-" + Render(subject);
        assert '/' !in "sub-";
        assert '/' !in "None";
      } else if session.Str? && i == 1 {
        assert ValidLabel(session.s);
        assert '/' !in "ses-";
      }
    }
    JoinAllSegments(segs);
    if root.Str? {
      Paths.JoinSegments(root.s, JoinAll(segs));
    }
  }

  /** The path does not depend on whether directories are made or
      overwritten, and nothing is requested when a check fails. */
  lemma PathIndependentOfCreation(subject: Value, session: Value, kind: Value, root: Value,
                                  makeDir: bool, overwrite: bool, makeDir': bool, overwrite': bool)
    ensures MakeBidsFolders(subject, session, kind, root, makeDir, overwrite).path
         == MakeBidsFolders(subject, session, kind, root, makeDir', overwrite').path
    ensures MakeBidsFolders(subject, session, kind, root, false, overwrite).mkdir == []
  {
  }

  /** A `None` subject is formatted by `'%s'` into the folder name. */
  lemma NoneSubject(kind: string)
    ensures MakeBidsFolders(NoneValue, NoneValue, Str(kind), NoneValue, false, true).path
         == Ok("sub-None/" + kind)
  {
    assert "sub-" + Render(NoneValue) == "sub-None";
    var segs := FolderSegments(NoneValue, NoneValue, Str(kind));
    assert segs == ["sub-None"] + [kind];
    assert segs[..1] == ["sub-None"];
    assert JoinAll(segs) == Paths.Join("sub-None", kind) == "sub-None" + "/" + kind;
    assert "sub-None" + "/" + kind == "sub-None/" + kind;
  }

  lemma JoinThree(a: string, b: string, c: string)
    requires a != "" && a[|a| - 1] != '/' && b != "" && b[|b| - 1] != '/'
    ensures JoinAll([a, b, c]) == a + "/" + b + "/" + c
  {
    assert [a, b, c][..2] == [a, b];
    assert [a, b][..1] == [a];
    var ab := a + "/" + b;
    assert JoinAll([a, b]) == ab;
    assert ab[|ab| - 1] == b[|b| - 1];
  }

  /** The last character of `key + value`, when `value` has no `/`, is
      not a `/`. */
  lemma NoTrailingSlash(key: string, value: string)
    requires key != "" && key[|key| - 1] != '/' && '/' !in value
    ensures (key + value)[|key + value| - 1] != '/'
  {
    if value != "" {
      assert (key + value)[|key + value| - 1] == value[|value| - 1];
    }
  }

  /** A session that passed the delimiter check holds no `/`. */
  lemma LabelHasNoSlash(session: string)
    requires ValidLabel(session)
    ensures '/' !in session
  {
    forall i | 0 <= i < |session| ensures session[i] != '/' {
      assert !IsDelimiter(session[i]);
    }
  }

  /** A complete hierarchy: `root/sub-<subject>/ses-<session>/<kind>`. */
  lemma FullHierarchy(subject: string, session: string, kind: string, root: string)
    requires '/' !in subject && ValidLabel(session) && root != "" && root[|root| - 1] != '/'
    ensures MakeBidsFolders(Str(subject), Str(session), Str(kind), Str(root), false, true).path
         == Ok(root + "/" + ("sub-" + subject) + "/" + ("ses-" + session) + "/" + kind)
  {
    var a := "sub-" + subject;
    var b := "ses-" + session;
    FolderPath(Str(subject), Str(session), Str(kind), Str(root), false, true);
    assert FolderSegments(Str(subject), Str(session), Str(kind)) == [a, b, kind];
    NoTrailingSlash("sub-", subject);
    LabelHasNoSlash(session);
    NoTrailingSlash("ses-", session);
    JoinThree(a, b, kind);
    assert root + "/" + (a + "/" + b + "/" + kind) == root + "/" + a + "/" + b + "/" + kind;
  }

  /** The docstring example (lines 180-182) passes the session
      `my_session`; the session check rejects it, so the call raises a
      `ValueError` instead of returning the path shown there. */
  lemma DocstringSessionRejected(subject: string, kind: string, root: string, makeDir: bool, overwrite: bool)
    ensures MakeBidsFolders(Str(subject), Str("my_session"), Str(kind), Str(root), makeDir, overwrite)
         == FolderResult(Err(ForbiddenCharacter("ses", "my_session")), [])
  {
    assert "my_session"[2] == '_';
  }
}
