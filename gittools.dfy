/**
  * The decision logic of the local git tools (pkg/git/tools.go): the
  * repository path validator that guards every tool, the splitting of the
  * `files` argument of git_add, and the numbered listing of
  * git_list_repositories.
  *
  * The file system is not modelled: `filepath.Abs` is the parameter `abs`
  * (None when it fails), "os.Stat of <path>/.git reports that it does not
  * exist" is the parameter `gitMissing`, and `filepath.Base` is `base`.
  */
module GitTools {
  import opened Wrappers
  import opened Strings

  // ---------------------------------------------------------------------------
  // validateRepoPath
  // ---------------------------------------------------------------------------

  /** The four ways validateRepoPath refuses a request. */
  datatype PathError =
    | NoRepository               // no repository specified and no defaults configured
    | InvalidPath                // filepath.Abs failed
    | AccessDenied(path: string) // path outside allowed repositories
    | NotARepository(path: string)

  /**
    * Segment-aware containment: `path` is `root` itself or lies below it,
    * so that the root "/repos/app" admits "/repos/app/x" but not
    * "/repos/app-backup".
    */
  predicate Within(path: string, root: string) {
    HasPrefix(path, root)
    && (|path| == |root| || (root != [] && root[|root| - 1] == '/') || path[|root|] == '/')
  }

  /** Some allowed root admits `path`. */
  predicate Admitted(path: string, allowed: seq<string>, admits: (string, string) -> bool) {
    exists i :: 0 <= i < |allowed| && admits(path, allowed[i])
  }

  /**
    * The verdict on a requested repository path, given the containment test
    * `admits(path, root)`. validateRepoPath uses the raw string prefix,
    * `HasPrefix`; `Within` is the segment-aware correction.
    */
  function Validate(requested: string, allowed: seq<string>, abs: string -> Option<string>,
                    gitMissing: string -> bool, admits: (string, string) -> bool): (r: Result<string, PathError>)
    // no request: the first allowed root, unchecked
    ensures requested == "" ==> r == (if |allowed| > 0 then Ok(allowed[0]) else Err(NoRepository))
    // a granted request is the absolute form of the request, which has a .git entry ...
    ensures requested != "" && r.Ok? ==> abs(requested) == Some(r.value) && !gitMissing(r.value)
    // ... and lies inside an allowed root whenever roots are configured
    ensures requested != "" && r.Ok? && |allowed| > 0 ==> Admitted(r.value, allowed, admits)
  {
    if requested == "" then
      if |allowed| > 0 then Ok(allowed[0]) else Err(NoRepository)
    else
      match abs(requested)
      case None => Err(InvalidPath)
      case Some(path) =>
        if !Admitted(path, allowed, admits) && |allowed| > 0 then Err(AccessDenied(path))
        else if gitMissing(path) then Err(NotARepository(path))
        else Ok(path)
  }

  /**
    * validateRepoPath: the search over the allowed roots stops at the first
    * root that is a string prefix of the absolute path.
    */
  method ValidateRepoPath(requested: string, allowed: seq<string>, abs: string -> Option<string>,
                          gitMissing: string -> bool) returns (r: Result<string, PathError>)
    ensures r == Validate(requested, allowed, abs, gitMissing, HasPrefix)
  {
    if requested == "" {
      if |allowed| > 0 {
        return Ok(allowed[0]);
      }
      return Err(NoRepository);
    }
    var absolute := abs(requested);
    if absolute.None? {
      return Err(InvalidPath);
    }
    var path := absolute.value;
    var isAllowed := false;
    for i := 0 to |allowed|
      invariant !isAllowed
      invariant forall j :: 0 <= j < i ==> !HasPrefix(path, allowed[j])
    {
      if HasPrefix(path, allowed[i]) {
        isAllowed := true;
        break;
      }
    }
    assert isAllowed <==> Admitted(path, allowed, HasPrefix);
    if !isAllowed && |allowed| > 0 {
      return Err(AccessDenied(path));
    }
    if gitMissing(path) {
      return Err(NotARepository(path));
    }
    return Ok(path);
  }

  /** Every outcome of a non-empty request, each with the exact condition that produces it. */
  lemma ValidateOutcomes(requested: string, allowed: seq<string>, abs: string -> Option<string>,
                         gitMissing: string -> bool, admits: (string, string) -> bool)
    requires requested != ""
    ensures var r := Validate(requested, allowed, abs, gitMissing, admits);
      && (r == Err(InvalidPath) <==> abs(requested).None?)
      && (r.Err? && r.error.AccessDenied? <==>
            abs(requested).Some? && |allowed| > 0 && !Admitted(abs(requested).value, allowed, admits))
      && (r.Err? && r.error.NotARepository? <==>
            abs(requested).Some? && (|allowed| == 0 || Admitted(abs(requested).value, allowed, admits))
            && gitMissing(abs(requested).value))
      && (r.Ok? <==>
            abs(requested).Some? && (|allowed| == 0 || Admitted(abs(requested).value, allowed, admits))
            && !gitMissing(abs(requested).value))
      && (r.Err? && (r.error.AccessDenied? || r.error.NotARepository?) ==> r.error.path == abs(requested).value)
      && r != Err(NoRepository)
  {
  }

  /**
    * Containment is checked before the .git entry: a path outside every
    * allowed root is denied whether or not it is a repository.
    */
  lemma DeniedBeforeGitCheck(requested: string, allowed: seq<string>, abs: string -> Option<string>,
                             gitMissing: string -> bool, gitMissing': string -> bool,
                             admits: (string, string) -> bool)
    requires requested != "" && abs(requested).Some? && |allowed| > 0
    requires !Admitted(abs(requested).value, allowed, admits)
    ensures Validate(requested, allowed, abs, gitMissing, admits) == Err(AccessDenied(abs(requested).value))
    ensures Validate(requested, allowed, abs, gitMissing, admits) == Validate(requested, allowed, abs, gitMissing', admits)
  {
  }

  /**
    * With no allowed roots nothing is contained, yet nothing is denied: the
    * verdict is the same whatever the containment test.
    */
  lemma UnrestrictedWithoutRoots(requested: string, abs: string -> Option<string>, gitMissing: string -> bool,
                                 admits: (string, string) -> bool, admits': (string, string) -> bool)
    requires requested != ""
    ensures Validate(requested, [], abs, gitMissing, admits) == Validate(requested, [], abs, gitMissing, admits')
    ensures abs(requested).Some? && !gitMissing(abs(requested).value) ==>
              Validate(requested, [], abs, gitMissing, admits) == Ok(abs(requested).value)
  {
  }

  /** Raw prefix containment: every string that extends a root is admitted. */
  lemma RawPrefixAdmitsExtensions(root: string, rest: string)
    ensures Admitted(root + rest, [root], HasPrefix)
  {
    assert HasPrefix(root + rest, [root][0]) by {
      assert (root + rest)[..|root|] == root;
    }
  }

  const AppRoot: string := "/repos/app"
  const SiblingPath: string := AppRoot + "-backup"

  /**
    * The root "/repos/app" grants the sibling directory "/repos/app-backup",
    * which lies outside it, while the segment-aware test denies it.
    */
  lemma SiblingAdmitted(abs: string -> Option<string>, gitMissing: string -> bool)
    requires abs(SiblingPath) == Some(SiblingPath) && !gitMissing(SiblingPath)
    ensures Validate(SiblingPath, [AppRoot], abs, gitMissing, HasPrefix) == Ok(SiblingPath)
    ensures Validate(SiblingPath, [AppRoot], abs, gitMissing, Within) == Err(AccessDenied(SiblingPath))
  {
    RawPrefixAdmitsExtensions(AppRoot, "-backup");
    assert SiblingPath[|AppRoot|] == '-';
    assert !Within(SiblingPath, AppRoot);
  }

  /**
    * For a root without a trailing separator, the segment-aware test admits
    * exactly the root itself and the paths that continue it with '/'.
    */
  lemma WithinSegments(root: string, rest: string)
    requires root != [] && root[|root| - 1] != '/'
    ensures Within(root + rest, root) <==> rest == [] || rest[0] == '/'
  {
    assert (root + rest)[..|root|] == root;
    if rest != [] {
      assert (root + rest)[|root|] == rest[0];
    }
  }

  /** Within implies raw prefix containment: the correction only ever denies more. */
  lemma WithinNarrowsPrefix(requested: string, allowed: seq<string>, abs: string -> Option<string>,
                            gitMissing: string -> bool)
    ensures var r := Validate(requested, allowed, abs, gitMissing, Within);
      r.Ok? ==> r == Validate(requested, allowed, abs, gitMissing, HasPrefix)
  {
    var r := Validate(requested, allowed, abs, gitMissing, Within);
    if r.Ok? && requested != "" && |allowed| > 0 {
      var i :| 0 <= i < |allowed| && Within(r.value, allowed[i]);
      assert HasPrefix(r.value, allowed[i]);
    }
  }

  // ---------------------------------------------------------------------------
  // GitAdd: the files argument
  // ---------------------------------------------------------------------------

  /** strings.TrimSpace applied to every piece. */
  function TrimAll(pieces: seq<string>): (r: seq<string>) {
    if pieces == [] then [] else TrimAll(pieces[..|pieces| - 1]) + [TrimSpace(pieces[|pieces| - 1])]
  }

  /** TrimAll trims each piece where it stands. */
  lemma {:induction false} TrimAllPieces(pieces: seq<string>)
    ensures |TrimAll(pieces)| == |pieces|
    ensures forall i :: 0 <= i < |pieces| ==> TrimAll(pieces)[i] == TrimSpace(pieces[i])
  {
    if pieces != [] {
      var init := pieces[..|pieces| - 1];
      TrimAllPieces(init);
      forall i | 0 <= i < |init| ensures TrimAll(pieces)[i] == TrimSpace(pieces[i]) {
        assert TrimAll(pieces)[i] == TrimAll(init)[i];
        assert init[i] == pieces[i];
      }
    }
  }

  /**
    * The files handed to `git add`: split on commas if there is one, else on
    * spaces if there is one, each piece trimmed; otherwise the argument as
    * it is.
    */
  function FileList(files: string): (r: seq<string>) {
    if ',' in files then TrimAll(Split(files, ','))
    else if ' ' in files then TrimAll(Split(files, ' '))
    else [files]
  }

  /** The separator FileList splits on, if any. */
  function Separator(files: string): Option<char> {
    if ',' in files then Some(',') else if ' ' in files then Some(' ') else None
  }

  /** Trims every element of `a` in place. */
  method TrimEach(a: array<string>)
    modifies a
    ensures a[..] == TrimAll(old(a[..]))
  {
    ghost var pieces := a[..];
    for i := 0 to a.Length
      invariant a[..] == TrimAll(pieces[..i]) + pieces[i..]
    {
      TrimStep(pieces, i, a[..]);
      a[i] := TrimSpace(a[i]);
    }
    assert pieces[..a.Length] == pieces;
  }

  /** One step of TrimEach: trimming element i extends the trimmed prefix by one. */
  lemma TrimStep(pieces: seq<string>, i: nat, current: seq<string>)
    requires i < |pieces| && current == TrimAll(pieces[..i]) + pieces[i..]
    ensures i < |current| && current[i] == pieces[i]
    ensures current[i := TrimSpace(current[i])] == TrimAll(pieces[..i + 1]) + pieces[i + 1..]
  {
    var done := TrimAll(pieces[..i]);
    TrimAllPieces(pieces[..i]);
    assert pieces[..i + 1][..i] == pieces[..i];
    ReplaceFirst(done, pieces[i..], TrimSpace(pieces[i]));
    assert pieces[i..][1..] == pieces[i + 1..];
  }

  /** Replacing the element just after a prefix. */
  lemma ReplaceFirst(done: seq<string>, rest: seq<string>, x: string)
    requires rest != []
    ensures (done + rest)[|done| := x] == done + [x] + rest[1..]
  {
  }

  /** The splitting block of GitAdd: split into a fresh array, then trim it in place. */
  method SplitFiles(filesStr: string) returns (files: array<string>)
    ensures fresh(files)
    ensures files[..] == FileList(filesStr)
  {
    if ',' in filesStr {
      var parts := Split(filesStr, ',');
      files := new string[|parts|](i requires 0 <= i < |parts| => parts[i]);
      assert files[..] == parts;
      TrimEach(files);
    } else if ' ' in filesStr {
      var parts := Split(filesStr, ' ');
      files := new string[|parts|](i requires 0 <= i < |parts| => parts[i]);
      assert files[..] == parts;
      TrimEach(files);
    } else {
      files := new string[1](_ => filesStr);
      assert files[..] == [filesStr];
    }
  }

  /**
    * There is one file per separator plus one; with a separator, each file is
    * trimmed and contains neither that separator nor (when splitting on
    * spaces) a comma; without one, the argument is passed on untouched.
    */
  lemma FileListShape(files: string)
    ensures var r := FileList(files);
      match Separator(files)
      case Some(c) =>
        && |r| == Count(files, c) + 1
        && (forall i :: 0 <= i < |r| ==> Trimmed(r[i]) && c !in r[i] && ',' !in r[i])
      case None => r == [files]
  {
    var r := FileList(files);
    match Separator(files)
    case Some(c) =>
      var parts := Split(files, c);
      TrimAllPieces(parts);
      forall i | 0 <= i < |r| ensures c !in r[i] && ',' !in r[i] {
        NotInTrimSpace(parts[i], c);
        if c == ' ' {
          assert ',' !in parts[i] by {
            forall k | 0 <= k < |parts[i]| ensures parts[i][k] != ',' {
              JoinSplit(files, c);
              PieceInJoin(parts, c, i, k);
            }
          }
          NotInTrimSpace(parts[i], ',');
        }
      }
    case None =>
  }

  /** A character of a piece is a character of the joined text. */
  lemma {:induction false} PieceInJoin(parts: seq<string>, c: char, i: nat, k: nat)
    requires i < |parts| && k < |parts[i]|
    ensures parts[i][k] in Join(parts, c)
  {
    if |parts| > 1 {
      var rest := Join(parts[1..], c);
      assert Join(parts, c) == parts[0] + [c] + rest;
      if i == 0 {
        assert Join(parts, c)[k] == parts[0][k];
      } else {
        PieceInJoin(parts[1..], c, i - 1, k);
        var m :| 0 <= m < |rest| && rest[m] == parts[i][k];
        assert Join(parts, c)[|parts[0]| + 1 + m] == rest[m];
      }
    }
  }

  /**
    * Nothing but white space is lost: the files are the trimmed pieces of the
    * argument between its separators, which join back to the argument.
    */
  lemma FileListPieces(files: string, c: char)
    requires Separator(files) == Some(c)
    ensures var pieces := Split(files, c);
      Join(pieces, c) == files && FileList(files) == TrimAll(pieces)
  {
    JoinSplit(files, c);
  }

  // ---------------------------------------------------------------------------
  // GitListRepositories
  // ---------------------------------------------------------------------------

  function Digit(d: nat): (c: char)
    requires d < 10
    ensures '0' <= c <= '9' && (c as int) - ('0' as int) == d
  {
    ((('0' as int) + d) as char)
  }

  /** Decimal digits of n, as fmt's %d writes them. */
  function NatToString(n: nat): (s: string)
    ensures s != [] && forall i :: 0 <= i < |s| ==> '0' <= s[i] <= '9'
    ensures n > 0 ==> s[0] != '0'
  {
    if n < 10 then [Digit(n)] else NatToString(n / 10) + [Digit(n % 10)]
  }

  /** The number a string of decimal digits denotes. */
  function DigitsValue(s: string): nat
    requires forall i :: 0 <= i < |s| ==> '0' <= s[i] <= '9'
  {
    if s == [] then 0 else 10 * DigitsValue(s[..|s| - 1]) + ((s[|s| - 1] as int) - ('0' as int))
  }

  /** NatToString is read back as the number it was made from, so distinct numbers print differently. */
  lemma {:induction false} NatToStringValue(n: nat)
    ensures DigitsValue(NatToString(n)) == n
  {
    if n >= 10 {
      var s := NatToString(n);
      NatToStringValue(n / 10);
      assert s[..|s| - 1] == NatToString(n / 10);
    }
  }

  lemma NatToStringInjective(m: nat, n: nat)
    requires NatToString(m) == NatToString(n)
    ensures m == n
  {
    NatToStringValue(m);
    NatToStringValue(n);
  }

  /** The line for the repository numbered k. */
  function EntryLine(k: nat, name: string, path: string): string {
    NatToString(k) + ". " + name + " (" + path + ")"
  }

  /** What the loop writes for the given repositories, numbered from 1, each line ended by "\n". */
  function Entries(paths: seq<string>, base: string -> string): (text: string) {
    if paths == [] then ""
    else
      var last := paths[|paths| - 1];
      Entries(paths[..|paths| - 1], base) + EntryLine(|paths|, base(last), last) + "\n"
  }

  function HeaderLine(n: nat): string {
    "Available repositories (" + NatToString(n) + "):"
  }

  /** The text git_list_repositories returns. */
  function Listing(paths: seq<string>, base: string -> string): (text: string) {
    if |paths| == 0 then "No repositories configured"
    else HeaderLine(|paths|) + "\n\n" + Entries(paths, base)
  }

  /** The builder loop of GitListRepositories. */
  method ListRepositories(paths: seq<string>, base: string -> string) returns (text: string)
    ensures text == Listing(paths, base)
  {
    if |paths| == 0 {
      return "No repositories configured";
    }
    text := HeaderLine(|paths|) + "\n\n";
    for i := 0 to |paths|
      invariant text == HeaderLine(|paths|) + "\n\n" + Entries(paths[..i], base)
    {
      assert paths[..i + 1][..i] == paths[..i];
      text := text + EntryLine(i + 1, base(paths[i]), paths[i]) + "\n";
    }
    assert paths[..|paths|] == paths;
  }

  /** One line per repository, in order. */
  function EntryLines(paths: seq<string>, base: string -> string): (r: seq<string>)
    ensures |r| == |paths|
    ensures forall i :: 0 <= i < |r| ==> r[i] == EntryLine(i + 1, base(paths[i]), paths[i])
  {
    seq(|paths|, i requires 0 <= i < |paths| => EntryLine(i + 1, base(paths[i]), paths[i]))
  }

  lemma EntryLinesSnoc(paths: seq<string>, base: string -> string)
    requires paths != []
    ensures var last := paths[|paths| - 1];
      EntryLines(paths, base) == EntryLines(paths[..|paths| - 1], base) + [EntryLine(|paths|, base(last), last)]
  {
  }

  lemma {:induction false} EntriesLines(paths: seq<string>, base: string -> string)
    requires paths != []
    ensures Entries(paths, base) == Join(EntryLines(paths, base), '\n') + "\n"
  {
    var init := paths[..|paths| - 1];
    var last := paths[|paths| - 1];
    var line := EntryLine(|paths|, base(last), last);
    EntryLinesSnoc(paths, base);
    if init != [] {
      calc {
        Entries(paths, base);
        Entries(init, base) + line + "\n";
        { EntriesLines(init, base); }
        Join(EntryLines(init, base), '\n') + "\n" + line + "\n";
        { JoinAppend(EntryLines(init, base), [line], '\n'); }
        Join(EntryLines(init, base) + [line], '\n') + "\n";
      }
    }
  }

  /**
    * The listing is the header line, a blank line, then one numbered line
    * per repository in order, the last one ended by a newline.
    */
  lemma ListingLines(paths: seq<string>, base: string -> string)
    requires paths != []
    ensures Listing(paths, base) == Join([HeaderLine(|paths|), ""] + EntryLines(paths, base) + [""], '\n')
  {
    var lines := EntryLines(paths, base);
    EntriesLines(paths, base);
    JoinAppend([HeaderLine(|paths|), ""], lines, '\n');
    JoinAppend([HeaderLine(|paths|), ""] + lines, [""], '\n');
  }

  /**
    * When no path or base name contains a newline, the i-th line after the
    * blank one names the i-th repository, numbered i + 1.
    */
  lemma ListingSplitsIntoLines(paths: seq<string>, base: string -> string)
    requires paths != []
    requires forall i :: 0 <= i < |paths| ==> '\n' !in paths[i] && '\n' !in base(paths[i])
    ensures var lines := Split(Listing(paths, base), '\n');
      && |lines| == |paths| + 3
      && lines[0] == HeaderLine(|paths|) && lines[1] == "" && lines[|paths| + 2] == ""
      && forall i :: 0 <= i < |paths| ==> lines[i + 2] == EntryLine(i + 1, base(paths[i]), paths[i])
  {
    var all := [HeaderLine(|paths|), ""] + EntryLines(paths, base) + [""];
    ListingLines(paths, base);
    LinesWithoutNewline(paths, base);
    SplitJoin(all, '\n');
  }

  /** None of the listing's lines contains a newline. */
  lemma LinesWithoutNewline(paths: seq<string>, base: string -> string)
    requires forall i :: 0 <= i < |paths| ==> '\n' !in paths[i] && '\n' !in base(paths[i])
    ensures var all := [HeaderLine(|paths|), ""] + EntryLines(paths, base) + [""];
      forall i :: 0 <= i < |all| ==> '\n' !in all[i]
  {
    var lines := EntryLines(paths, base);
    HeaderLineNoNewline(|paths|);
    forall i | 0 <= i < |paths| ensures '\n' !in lines[i] {
      EntryLineNoNewline(i + 1, base(paths[i]), paths[i]);
    }
  }

  lemma HeaderLineNoNewline(n: nat)
    ensures '\n' !in HeaderLine(n)
  {
    assert '\n' !in NatToString(n);
    assert '\n' !in "Available repositories (";
    assert '\n' !in "):";
    NotInConcat("Available repositories (", NatToString(n), '\n');
    NotInConcat("Available repositories (" + NatToString(n), "):", '\n');
  }

  lemma EntryLineNoNewline(k: nat, name: string, path: string)
    requires '\n' !in name && '\n' !in path
    ensures '\n' !in EntryLine(k, name, path)
  {
    assert '\n' !in NatToString(k);
    assert '\n' !in ". ";
    assert '\n' !in " (";
    assert '\n' !in ")";
    NotInConcat(NatToString(k), ". ", '\n');
    NotInConcat(NatToString(k) + ". ", name, '\n');
    NotInConcat(NatToString(k) + ". " + name, " (", '\n');
    NotInConcat(NatToString(k) + ". " + name + " (", path, '\n');
    NotInConcat(NatToString(k) + ". " + name + " (" + path, ")", '\n');
  }
}
