/** `utils/github_manager.py` over an in-memory hosting account.

    The hosting provider is modelled by two classes standing in for the
    client library's objects: an `Account` (the authenticated user) holding
    a map from repository name to `Repository`, and a `Repository` holding
    a map from path to content, its commit history and its static-site
    configuration. Every hosting call the source makes is a method of these
    classes, with the provider's error statuses as a result value: a read of
    a missing path or repository is `NotFound`, creating what already
    exists, updating with a stale revision marker, or listing the commits of
    an empty repository is `Conflict`.

    The source's own functions (`create_or_update_repo`, `update_readme`,
    `get_mit_license`) are the module-level members below. */
module GithubManager {
  import opened Wrappers
  import opened Text
  import Numbers
  import CodeGenerator

  const LicensePath := "LICENSE"
  const ReadmePath := "README.md"
  const LicenseCommit := Commit(LicensePath, "Add MIT License")
  const ReadmeCommit := Commit(ReadmePath, "Add README")

  datatype HostingError = NotFound | Conflict

  /** One commit: the path it wrote and its message. A commit's identifier
      is its position in the history. */
  datatype Commit = Commit(path: string, message: string)

  /** What reading a path returns: the path and its revision marker. */
  datatype ContentFile = ContentFile(path: string, sha: string)

  /** The static-site source: a branch and a directory. */
  datatype PagesSource = PagesSource(branch: string, dir: string)

  /** The revision marker of a file. The provider derives it from the
      content by a collision-free hash; the content itself serves here. */
  function BlobSha(content: string): string {
    content
  }

  /** The repository summary `create_or_update_repo` returns. */
  datatype RepoInfo = RepoInfo(repoUrl: string, commitSha: nat, pagesUrl: string)

  class Repository {
    const name: string
    const htmlUrl: string
    var files: map<string, string>
    /** Oldest first; the newest commit, which the provider lists first, is the last. */
    var history: seq<Commit>
    var pages: Option<PagesSource>

    /** A new repository without auto-initialised files. */
    constructor (name: string, htmlUrl: string)
      ensures this.name == name && this.htmlUrl == htmlUrl
      ensures files == map[] && history == [] && pages == None
    {
      this.name := name;
      this.htmlUrl := htmlUrl;
      files := map[];
      history := [];
      pages := None;
    }

    /** `repo.get_contents(path)`. */
    method GetContents(path: string) returns (r: Result<ContentFile, HostingError>)
      ensures path in files ==> r == Success(ContentFile(path, BlobSha(files[path])))
      ensures path !in files ==> r == Failure(NotFound)
    {
      if path in files {
        r := Success(ContentFile(path, BlobSha(files[path])));
      } else {
        r := Failure(NotFound);
      }
    }

    /** `repo.create_file(...)`: refused when the path exists. */
    method CreateFile(path: string, message: string, content: string) returns (r: Outcome<HostingError>)
      modifies this
      ensures path in old(files) ==> r == Fail(Conflict) && files == old(files) && history == old(history)
      ensures path !in old(files) ==> r == Pass && files == old(files)[path := content]
                                      && history == old(history) + [Commit(path, message)]
      ensures pages == old(pages)
    {
      if path in files {
        r := Fail(Conflict);
      } else {
        files := files[path := content];
        history := history + [Commit(path, message)];
        r := Pass;
      }
    }

    /** `repo.update_file(...)`: needs an existing path and its current
      revision marker. */
    method UpdateFile(path: string, message: string, content: string, sha: string) returns (r: Outcome<HostingError>)
      modifies this
      ensures path !in old(files) ==> r == Fail(NotFound) && files == old(files) && history == old(history)
      ensures path in old(files) && sha != BlobSha(old(files)[path]) ==>
                r == Fail(Conflict) && files == old(files) && history == old(history)
      ensures path in old(files) && sha == BlobSha(old(files)[path]) ==>
                r == Pass && files == old(files)[path := content] && history == old(history) + [Commit(path, message)]
      ensures pages == old(pages)
    {
      if path !in files {
        r := Fail(NotFound);
      } else if sha != BlobSha(files[path]) {
        r := Fail(Conflict);
      } else {
        files := files[path := content];
        history := history + [Commit(path, message)];
        r := Pass;
      }
    }

    /** `repo.create_pages_site(source=...)`: refused when a site exists,
      or when the provider turns it down for another reason (`refused`). */
    method CreatePagesSite(source: PagesSource, refused: bool) returns (r: Outcome<HostingError>)
      modifies this
      ensures old(pages).Some? || refused ==> r == Fail(Conflict) && pages == old(pages)
      ensures old(pages).None? && !refused ==> r == Pass && pages == Some(source)
      ensures files == old(files) && history == old(history)
    {
      if pages.Some? || refused {
        r := Fail(Conflict);
      } else {
        pages := Some(source);
        r := Pass;
      }
    }

    /** `repo.get_commits()[0].sha`: the newest commit. */
    method LatestCommit() returns (r: Result<nat, HostingError>)
      ensures history == [] ==> r == Failure(Conflict)
      ensures history != [] ==> r == Success(|history| - 1)
    {
      if history == [] {
        r := Failure(Conflict);
      } else {
        r := Success(|history| - 1);
      }
    }
  }

  class Account {
    const login: string
    var repos: map<string, Repository>

    /** Each repository is filed under its own name, so distinct names
        hold distinct objects. */
    ghost predicate Valid()
      reads this, repos.Values
    {
      forall n :: n in repos ==> repos[n].name == n
    }

    constructor (login: string)
      ensures this.login == login && repos == map[] && Valid()
    {
      this.login := login;
      repos := map[];
    }

    /** `user.get_repo(name)`; `failing` stands for any other error the
        provider may answer with. */
    method GetRepo(name: string, failing: bool) returns (r: Result<Repository, HostingError>)
      ensures name in repos && !failing ==> r == Success(repos[name])
      ensures name !in repos || failing ==> r.Failure?
    {
      if name in repos && !failing {
        r := Success(repos[name]);
      } else {
        r := Failure(if failing then Conflict else NotFound);
      }
    }

    /** `user.create_repo(name=..., auto_init=False)`: refused when the
        name is taken. */
    method CreateRepo(name: string) returns (r: Result<Repository, HostingError>)
      requires Valid()
      modifies this
      ensures Valid()
      ensures name in old(repos) ==> r == Failure(Conflict) && repos == old(repos)
      ensures name !in old(repos) ==>
                && r.Success? && fresh(r.value) && repos == old(repos)[name := r.value]
                && r.value.name == name && r.value.files == map[] && r.value.history == []
                && r.value.pages == None
    {
      if name in repos {
        r := Failure(Conflict);
      } else {
        var repo := new Repository(name, "https://github.com/" + login + "/" + name);
        repos := repos[name := repo];
        r := Success(repo);
      }
    }
  }

  /** The separator between task and round in a repository name. */
  const RoundInfix := "-round-"

  /** Line 44: `f"{task}-round-{round_num}"`. */
  function RepoName(task: string, round: int): string {
    task + RoundInfix + Numbers.IntToString(round)
  }

  /** A longer round suffix cannot end the same name: the 'r' of the
      separator would have to be a digit, a '-' or another letter of
      "-round-". */
  lemma SuffixLengthsAgree(t1: string, d1: string, t2: string, d2: string)
    requires |d1| < |d2|
    requires forall k :: 0 <= k < |d2| ==> d2[k] != 'r'
    ensures t1 + RoundInfix + d1 != t2 + RoundInfix + d2
  {
    var a := t1 + RoundInfix + d1;
    var b := t2 + RoundInfix + d2;
    if |a| == |b| {
      var p := |t1| + 1;
      assert a[p] == 'r';
      var q := p - |t2|;
      if q < 7 {
        assert b[p] == RoundInfix[q];
      } else {
        assert b[p] == d2[q - 7];
      }
    }
  }

  /** Distinct (task, round) pairs name distinct repositories. */
  lemma RepoNameInjective(t1: string, r1: int, t2: string, r2: int)
    requires RepoName(t1, r1) == RepoName(t2, r2)
    ensures t1 == t2 && r1 == r2
  {
    var d1 := Numbers.IntToString(r1);
    var d2 := Numbers.IntToString(r2);
    if |d1| < |d2| {
      SuffixLengthsAgree(t1, d1, t2, d2);
    } else if |d2| < |d1| {
      SuffixLengthsAgree(t2, d2, t1, d1);
    }
    var a := RepoName(t1, r1);
    assert d1 == a[|a| - |d1|..] == d2;
    assert t1 + RoundInfix == a[..|a| - |d1|] == t2 + RoundInfix;
    assert t1 == (t1 + RoundInfix)[..|t1|];
    Numbers.IntToStringInjective(r1, r2);
  }

  /** Different rounds of one task address different repositories. */
  lemma RoundsAddressDistinctRepos(task: string, r1: int, r2: int)
    requires r1 != r2
    ensures RepoName(task, r1) != RepoName(task, r2)
  {
    if RepoName(task, r1) == RepoName(task, r2) {
      RepoNameInjective(task, r1, task, r2);
    }
  }

  /** Line 117: the static-site address of a repository. */
  function PagesUrl(login: string, repoName: string): string {
    "https://" + login + ".github.io/" + repoName + "/"
  }

  /** For one account, the static-site address determines the repository. */
  lemma PagesUrlNamesRepo(login: string, n1: string, n2: string)
    requires PagesUrl(login, n1) == PagesUrl(login, n2)
    ensures n1 == n2
  {
    var u := PagesUrl(login, n1);
    var start := |"https://" + login + ".github.io/"|;
    assert n1 == u[start..|u| - 1];
    assert n2 == PagesUrl(login, n2)[start..|u| - 1];
  }

  /** `GITHUB_USERNAME or "Student"`: an unset or empty name falls back. */
  function LicenseHolder(username: Option<string>): (holder: string)
    ensures holder != []
    ensures username.Some? && username.value != [] ==> holder == username.value
    ensures username.None? || username.value == [] ==> holder == "Student"
  {
    if username.Some? && username.value != [] then username.value else "Student"
  }

  const MitPermission :=
    "Permission is hereby granted, free of charge, to any person obtaining a copy\n"
    + "of this software and associated documentation files (the \"Software\"), to deal\n"
    + "in the Software without restriction, including without limitation the rights\n"
    + "to use, copy, modify, merge, publish, distribute, sublicense, and/or sell\n"
    + "copies of the Software, and to permit persons to whom the Software is\n"
    + "furnished to do so, subject to the following conditions:\n\n"
    + "The above copyright notice and this permission notice shall be included in all\n"
    + "copies or substantial portions of the Software.\n\n"
    + "THE SOFTWARE IS PROVIDED \"AS IS\", WITHOUT WARRANTY OF ANY KIND, EXPRESS OR\n"
    + "IMPLIED, INCLUDING BUT NOT LIMITED TO THE WARRANTIES OF MERCHANTABILITY,\n"
    + "FITNESS FOR A PARTICULAR PURPOSE AND NONINFRINGEMENT. IN NO EVENT SHALL THE\n"
    + "AUTHORS OR COPYRIGHT HOLDERS BE LIABLE FOR ANY CLAIM, DAMAGES OR OTHER\n"
    + "LIABILITY, WHETHER IN AN ACTION OF CONTRACT, TORT OR OTHERWISE, ARISING FROM,\n"
    + "OUT OF OR IN CONNECTION WITH THE SOFTWARE OR THE USE OR OTHER DEALINGS IN THE\n"
    + "SOFTWARE.\n"

  const LicenseTitle := "MIT License\n\n"
  const CopyrightYear := "2025"

  /** The copyright line naming the year and the holder. */
  function CopyrightLine(holder: string): string {
    "Copyright (c) " + CopyrightYear + " " + holder + "\n"
  }

  /** `get_mit_license()`, with the configured user name as a parameter. */
  function MitLicense(username: Option<string>): string {
    LicenseTitle + CopyrightLine(LicenseHolder(username)) + ("\n" + MitPermission)
  }

  /** The middle piece of a three-part concatenation occurs after the first. */
  lemma InfixOccurs(a: string, b: string, c: string)
    ensures OccursAt(a + b + c, b, |a|)
  {
    assert (a + b + c)[|a|..|a| + |b|] == b;
  }

  /** A text whose second piece is a copyright line holds the year and
      the holder. */
  lemma CopyrightLineNames(title: string, holder: string, rest: string)
    ensures Contains(title + CopyrightLine(holder) + rest, CopyrightYear)
    ensures Contains(title + CopyrightLine(holder) + rest, holder)
  {
    var line := CopyrightLine(holder);
    var text := title + line + rest;
    assert text[|title|..|title| + |line|] == line by { InfixOccurs(title, line, rest); }
    InfixOccurs("Copyright (c) ", CopyrightYear, " " + holder + "\n");
    assert line == "Copyright (c) " + CopyrightYear + (" " + holder + "\n");
    OccursInSlice(text, |title|, |title| + |line|, CopyrightYear, 14);
    ContainsAt(text, CopyrightYear, |title| + 14);
    InfixOccurs("Copyright (c) " + CopyrightYear + " ", holder, "\n");
    OccursInSlice(text, |title|, |title| + |line|, holder, 19);
    ContainsAt(text, holder, |title| + 19);
  }

  /** The license carries the year 2025 and the configured user name, or
      "Student" when that is unset or empty. */
  lemma LicenseNamesYearAndHolder(username: Option<string>)
    ensures Contains(MitLicense(username), "2025")
    ensures username.Some? && username.value != [] ==> Contains(MitLicense(username), username.value)
    ensures username.None? || username.value == [] ==> Contains(MitLicense(username), "Student")
  {
    CopyrightLineNames(LicenseTitle, LicenseHolder(username), "\n" + MitPermission);
  }

  /** Lines 77-78: the placeholder README of a new repository. */
  function PlaceholderReadme(task: string): string {
    "# " + task + "\n\nGenerated application for " + task
  }

  /** The paths of a `{path: content}` dictionary, in insertion order. */
  function Paths(files: seq<(string, string)>): seq<string> {
    seq(|files|, k requires 0 <= k < |files| => files[k].0)
  }

  /** A Python dictionary holds each key once. */
  predicate DistinctPaths(files: seq<(string, string)>) {
    forall i, j :: 0 <= i < j < |files| ==> files[i].0 != files[j].0
  }

  /** The dictionary as a map, inserting entries in order. */
  function AsMap(files: seq<(string, string)>): map<string, string>
    decreases |files|
  {
    if files == [] then map[]
    else AsMap(files[..|files| - 1])[files[|files| - 1].0 := files[|files| - 1].1]
  }

  /** The map's keys are exactly the listed paths. */
  lemma {:induction false} AsMapKeys(files: seq<(string, string)>)
    ensures forall p :: p in AsMap(files) <==> p in Paths(files)
    decreases |files|
  {
    if files != [] {
      var init := files[..|files| - 1];
      AsMapKeys(init);
      assert Paths(files) == Paths(init) + [files[|files| - 1].0];
    }
  }

  /** Each listed path maps to its own content. */
  lemma {:induction false} AsMapLookup(files: seq<(string, string)>, k: nat)
    requires DistinctPaths(files) && k < |files|
    ensures files[k].0 in AsMap(files) && AsMap(files)[files[k].0] == files[k].1
    decreases |files|
  {
    if k < |files| - 1 {
      var init := files[..|files| - 1];
      AsMapLookup(init, k);
    }
  }

  lemma AsMapSnoc(files: seq<(string, string)>, i: nat)
    requires i < |files|
    ensures AsMap(files[..i + 1]) == AsMap(files[..i])[files[i].0 := files[i].1]
  {
    assert files[..i + 1][..i] == files[..i];
  }

  lemma NotYetWritten(files: seq<(string, string)>, i: nat)
    requires DistinctPaths(files) && i < |files|
    ensures files[i].0 !in AsMap(files[..i])
  {
    AsMapKeys(files[..i]);
    assert forall j :: 0 <= j < i ==> Paths(files[..i])[j] != files[i].0;
  }

  /** A path is listed exactly when some entry carries it. */
  lemma PathsHoldEvery(files: seq<(string, string)>, p: string)
    ensures p !in Paths(files) <==> forall k :: 0 <= k < |files| ==> files[k].0 != p
  {
    assert forall k :: 0 <= k < |files| ==> Paths(files)[k] == files[k].0;
    if p in Paths(files) {
      var k :| 0 <= k < |files| && Paths(files)[k] == p;
      assert files[k].0 == p;
    }
  }

  /** Line 70: the message of a code file's first commit. */
  function CreateMessage(path: string): string {
    "Add " + path
  }

  /** Lines 67-72: one commit per code file, in order. */
  function AddCommits(files: seq<(string, string)>): seq<Commit> {
    seq(|files|, k requires 0 <= k < |files| => Commit(files[k].0, CreateMessage(files[k].0)))
  }

  /** Lines 86-97: an update commit for a path the repository had before,
      a create commit otherwise. */
  function UpsertCommit(before: map<string, string>, path: string, round: int): Commit {
    Commit(path, if path in before then UpdateMessage(path, round) else AddMessage(path, round))
  }

  function UpdateMessage(path: string, round: int): string {
    "Update " + path + " for round " + Numbers.IntToString(round)
  }

  function AddMessage(path: string, round: int): string {
    "Add " + path + " for round " + Numbers.IntToString(round)
  }

  function UpsertCommits(before: map<string, string>, files: seq<(string, string)>, round: int): seq<Commit> {
    seq(|files|, k requires 0 <= k < |files| => UpsertCommit(before, files[k].0, round))
  }

  /** One more code file written on top of `base`: the map gains that
      path, which it did not hold unless `base` held it. */
  lemma WriteStep(base: map<string, string>, files: seq<(string, string)>, i: nat)
    requires DistinctPaths(files) && i < |files|
    ensures base + AsMap(files[..i + 1]) == (base + AsMap(files[..i]))[files[i].0 := files[i].1]
    ensures files[i].0 in base + AsMap(files[..i]) <==> files[i].0 in base
  {
    NotYetWritten(files, i);
    AsMapSnoc(files, i);
  }

  lemma AddCommitsSnoc(past: seq<Commit>, files: seq<(string, string)>, i: nat)
    requires i < |files|
    ensures past + AddCommits(files[..i + 1]) == past + AddCommits(files[..i]) + [Commit(files[i].0, CreateMessage(files[i].0))]
  {
    assert AddCommits(files[..i + 1]) == AddCommits(files[..i]) + [Commit(files[i].0, CreateMessage(files[i].0))];
  }

  /** One more upsert commit extends the history by the commit for the next file. */
  lemma UpsertCommitsSnoc(past: seq<Commit>, before: map<string, string>, files: seq<(string, string)>,
                          i: nat, round: int)
    requires i < |files|
    ensures past + UpsertCommits(before, files[..i + 1], round)
            == past + UpsertCommits(before, files[..i], round) + [UpsertCommit(before, files[i].0, round)]
  {
    assert UpsertCommits(before, files[..i + 1], round)
           == UpsertCommits(before, files[..i], round) + [UpsertCommit(before, files[i].0, round)];
  }

  lemma PathsSnoc(files: seq<(string, string)>, i: nat)
    requires i < |files|
    ensures Paths(files[..i + 1]) == Paths(files[..i]) + [files[i].0]
    ensures files[i].0 in Paths(files)
  {
    assert Paths(files)[i] == files[i].0;
  }

  /** What a new repository holds once seeded: the license, the code files
      and the placeholder README. */
  function SeededFiles(task: string, files: seq<(string, string)>, username: Option<string>): map<string, string> {
    map[LicensePath := MitLicense(username)] + AsMap(files) + map[ReadmePath := PlaceholderReadme(task)]
  }

  /** The seeding commits of a new repository, oldest first. */
  function SeedCommits(files: seq<(string, string)>): seq<Commit> {
    [LicenseCommit] + AddCommits(files) + [ReadmeCommit]
  }

  const MainRoot := PagesSource("main", "/")

  /** Lines 67-72: create each code file with an "Add" commit, stopping
      at the first path that exists. */
  method AddFiles(repo: Repository, codeFiles: seq<(string, string)>) returns (r: Outcome<HostingError>)
    requires DistinctPaths(codeFiles)
    modifies repo
    ensures repo.pages == old(repo.pages)
    ensures r.Pass? <==> forall k :: 0 <= k < |codeFiles| ==> codeFiles[k].0 !in old(repo.files)
    ensures r.Pass? ==> repo.files == old(repo.files) + AsMap(codeFiles)
                        && repo.history == old(repo.history) + AddCommits(codeFiles)
    // No rollback: the files created before the first taken path stay.
    ensures r.Fail? ==> exists i ::
              && 0 <= i < |codeFiles| && codeFiles[i].0 in old(repo.files)
              && (forall k :: 0 <= k < i ==> codeFiles[k].0 !in old(repo.files))
              && repo.files == old(repo.files) + AsMap(codeFiles[..i])
              && repo.history == old(repo.history) + AddCommits(codeFiles[..i])
  {
    ghost var base := repo.files;
    ghost var past := repo.history;
    var i := 0;
    while i < |codeFiles|
      invariant 0 <= i <= |codeFiles|
      invariant repo.pages == old(repo.pages)
      invariant forall k :: 0 <= k < i ==> codeFiles[k].0 !in base
      invariant repo.files == base + AsMap(codeFiles[..i])
      invariant repo.history == past + AddCommits(codeFiles[..i])
    {
      var path, content := codeFiles[i].0, codeFiles[i].1;
      WriteStep(base, codeFiles, i);
      AddCommitsSnoc(past, codeFiles, i);
      r := repo.CreateFile(path, CreateMessage(path), content);
      if r.Fail? {
        assert codeFiles[i].0 in base;
        assert repo.files == base + AsMap(codeFiles[..i]);
        return;
      }
      i := i + 1;
    }
    assert codeFiles[..i] == codeFiles;
    r := Pass;
  }

  /** Lines 54-78: seed a freshly created repository with the license,
      the code files and the placeholder README. Fails, as the provider
      refuses, when a code file is itself named LICENSE or README.md. */
  method SeedRepository(repo: Repository, task: string, codeFiles: seq<(string, string)>,
                        username: Option<string>) returns (r: Outcome<HostingError>)
    requires DistinctPaths(codeFiles)
    requires repo.files == map[] && repo.history == []
    modifies repo
    ensures repo.pages == old(repo.pages)
    ensures r.Pass? <==> LicensePath !in Paths(codeFiles) && ReadmePath !in Paths(codeFiles)
    ensures r.Pass? ==> repo.files == SeededFiles(task, codeFiles, username)
                        && repo.history == SeedCommits(codeFiles)
    // No rollback: what was created before the refused create stays.
    ensures r.Fail? ==> exists i :: SeedStoppedAt(repo.files, repo.history, codeFiles, MitLicense(username), i)
  {
    r := repo.CreateFile(LicenseCommit.path, LicenseCommit.message, MitLicense(username));
    ghost var licensed := repo.history;
    ghost var licenseFiles := repo.files;
    assert licenseFiles == map[LicensePath := MitLicense(username)] && licensed == [LicenseCommit];
    r := AddFiles(repo, codeFiles);
    SeedFacts(task, codeFiles, MitLicense(username));
    if r.Fail? {
      ghost var i :| && 0 <= i < |codeFiles| && codeFiles[i].0 in licenseFiles
                     && (forall k :: 0 <= k < i ==> codeFiles[k].0 !in licenseFiles)
                     && repo.files == licenseFiles + AsMap(codeFiles[..i])
                     && repo.history == licensed + AddCommits(codeFiles[..i]);
      StoppedAtLicense(repo.files, repo.history, codeFiles, MitLicense(username), i);
      return;
    }
    ghost var coded := repo.history;
    r := repo.CreateFile(ReadmeCommit.path, ReadmeCommit.message, PlaceholderReadme(task));
    if r.Pass? {
      SeedHistory(licensed, coded, repo.history, codeFiles);
    } else {
      StoppedAtReadme(repo.files, repo.history, codeFiles, MitLicense(username));
    }
  }

  /** The state a refused seeding leaves: the license and the code files
      before position `i`, where the refused create happened. That create
      is the first code file named LICENSE or, when there is none, the
      README, whose path a code file has taken. */
  ghost predicate SeedStoppedAt(files: map<string, string>, history: seq<Commit>,
                                codeFiles: seq<(string, string)>, license: string, i: nat)
  {
    && i <= |codeFiles|
    && (forall k :: 0 <= k < i ==> codeFiles[k].0 != LicensePath)
    && (i < |codeFiles| ==> codeFiles[i].0 == LicensePath)
    && (i == |codeFiles| ==> ReadmePath in Paths(codeFiles))
    && files == map[LicensePath := license] + AsMap(codeFiles[..i])
    && history == [LicenseCommit] + AddCommits(codeFiles[..i])
  }

  /** A single code file named LICENSE is refused at once: the MIT text
      and its one commit are all the repository holds. */
  lemma LicenseCodeFileKeepsMit(files: map<string, string>, history: seq<Commit>,
                                content: string, license: string, i: nat)
    requires SeedStoppedAt(files, history, [(LicensePath, content)], license, i)
    ensures files == map[LicensePath := license] && history == [LicenseCommit]
  {
    assert i == 0;
    assert [(LicensePath, content)][..0] == [];
  }

  lemma WholePrefix(files: seq<(string, string)>)
    ensures files[..|files|] == files
  {
  }

  /** Seeding stops inside the code files only at a code file named LICENSE. */
  lemma StoppedAtLicense(files: map<string, string>, history: seq<Commit>,
                         codeFiles: seq<(string, string)>, license: string, i: nat)
    requires i < |codeFiles| && codeFiles[i].0 in map[LicensePath := license]
    requires forall k :: 0 <= k < i ==> codeFiles[k].0 !in map[LicensePath := license]
    requires files == map[LicensePath := license] + AsMap(codeFiles[..i])
    requires history == [LicenseCommit] + AddCommits(codeFiles[..i])
    ensures SeedStoppedAt(files, history, codeFiles, license, i)
  {
  }

  /** A refused README create, after every code file, means a code file
      took its path. */
  lemma StoppedAtReadme(files: map<string, string>, history: seq<Commit>,
                        codeFiles: seq<(string, string)>, license: string)
    requires forall k :: 0 <= k < |codeFiles| ==> codeFiles[k].0 !in map[LicensePath := license]
    requires ReadmePath in map[LicensePath := license] + AsMap(codeFiles)
    requires files == map[LicensePath := license] + AsMap(codeFiles)
    requires history == [LicenseCommit] + AddCommits(codeFiles)
    ensures SeedStoppedAt(files, history, codeFiles, license, |codeFiles|)
  {
    WholePrefix(codeFiles);
    assert ReadmePath in AsMap(codeFiles);
    AsMapKeys(codeFiles);
  }

  lemma SeedHistory(licensed: seq<Commit>, coded: seq<Commit>, seeded: seq<Commit>, codeFiles: seq<(string, string)>)
    requires licensed == [] + [LicenseCommit]
    requires coded == licensed + AddCommits(codeFiles)
    requires seeded == coded + [ReadmeCommit]
    ensures seeded == SeedCommits(codeFiles)
  {
  }

  /** The license path is a code path exactly when adding the code files
      after the license fails; then README.md is created exactly when no
      code file took its path, completing the seeded files. */
  lemma SeedFacts(task: string, codeFiles: seq<(string, string)>, license: string)
    ensures (forall k :: 0 <= k < |codeFiles| ==> codeFiles[k].0 !in map[LicensePath := license])
            <==> LicensePath !in Paths(codeFiles)
    ensures ReadmePath in map[LicensePath := license] + AsMap(codeFiles) <==> ReadmePath in Paths(codeFiles)
    ensures (map[LicensePath := license] + AsMap(codeFiles))[ReadmePath := PlaceholderReadme(task)]
            == map[LicensePath := license] + AsMap(codeFiles) + map[ReadmePath := PlaceholderReadme(task)]
  {
    PathsHoldEvery(codeFiles, LicensePath);
    AsMapKeys(codeFiles);
    UpdateIsUnion(map[LicensePath := license] + AsMap(codeFiles), ReadmePath, PlaceholderReadme(task));
  }

  lemma UpdateIsUnion(m: map<string, string>, k: string, v: string)
    ensures m[k := v] == m + map[k := v]
  {
  }

  /** The source's write pattern (lines 86-97 and 128-138): read the path
      and update it with the revision marker; if either step fails, create
      the path instead. */
  method PutFile(repo: Repository, path: string, content: string, updateMessage: string, createMessage: string)
    modifies repo
    ensures repo.pages == old(repo.pages)
    ensures repo.files == old(repo.files)[path := content]
    ensures repo.history == old(repo.history)
              + [Commit(path, if path in old(repo.files) then updateMessage else createMessage)]
  {
    var written: Outcome<HostingError> := Fail(NotFound);
    var file := repo.GetContents(path);
    if file.Success? {
      written := repo.UpdateFile(path, updateMessage, content, file.value.sha);
    }
    if written.Fail? {
      var created := repo.CreateFile(path, createMessage, content);
    }
  }

  /** Lines 80-97: upsert every code file into an existing repository:
      update with the revision marker when the path can be read, create
      it when reading fails. */
  method UpsertFiles(repo: Repository, codeFiles: seq<(string, string)>, round: int)
    requires DistinctPaths(codeFiles)
    modifies repo
    ensures repo.pages == old(repo.pages)
    ensures repo.files == old(repo.files) + AsMap(codeFiles)
    ensures repo.history == old(repo.history) + UpsertCommits(old(repo.files), codeFiles, round)
  {
    ghost var before := repo.files;
    ghost var past := repo.history;
    var i := 0;
    while i < |codeFiles|
      invariant 0 <= i <= |codeFiles|
      invariant repo.pages == old(repo.pages)
      invariant repo.files == before + AsMap(codeFiles[..i])
      invariant repo.history == past + UpsertCommits(before, codeFiles[..i], round)
    {
      var path, content := codeFiles[i].0, codeFiles[i].1;
      WriteStep(before, codeFiles, i);
      UpsertCommitsSnoc(past, before, codeFiles, i, round);
      PutFile(repo, path, content, UpdateMessage(path, round), AddMessage(path, round));
      i := i + 1;
    }
    assert codeFiles[..i] == codeFiles;
  }

  /** Lines 99-118: request the static site (any refusal is ignored),
      then report the newest commit. */
  method Publish(repo: Repository, pagesUrl: string, pagesRefused: bool) returns (r: Result<RepoInfo, HostingError>)
    modifies repo
    ensures repo.files == old(repo.files) && repo.history == old(repo.history)
    ensures repo.pages == (if old(repo.pages).None? && !pagesRefused then Some(MainRoot) else old(repo.pages))
    ensures r.Success? <==> repo.history != []
    ensures r.Success? ==> r.value == RepoInfo(repo.htmlUrl, |repo.history| - 1, pagesUrl)
  {
    var site := repo.CreatePagesSite(MainRoot, pagesRefused);
    var head := repo.LatestCommit();
    if head.Failure? {
      return Failure(head.error);
    }
    r := Success(RepoInfo(repo.htmlUrl, head.value, pagesUrl));
  }

  /** `create_or_update_repo` (lines 35-118) for the authenticated `user`.
      A failing lookup of any kind (`lookupFails` for errors other than a
      missing repository) leads to creation; a refused static-site request
      is ignored. */
  method CreateOrUpdateRepo(user: Account, task: string, codeFiles: seq<(string, string)>, round: int,
                            username: Option<string>, lookupFails: bool, pagesRefused: bool)
    returns (r: Result<RepoInfo, HostingError>, repo: Repository?)
    requires user.Valid() && DistinctPaths(codeFiles)
    modifies user, user.repos.Values
    ensures user.Valid()
    ensures var name := RepoName(task, round);
      && (forall n :: n in old(user.repos) && n != name ==>
            n in user.repos && user.repos[n] == old(user.repos)[n] && unchanged(old(user.repos)[n]))
      // An existing repository that could be read: every code file upserted, nothing else touched.
      && (name in old(user.repos) && !lookupFails ==>
            && repo == old(user.repos)[name] && user.repos == old(user.repos)
            && repo.files == old(user.repos[name].files) + AsMap(codeFiles)
            && repo.history == old(user.repos[name].history)
                               + UpsertCommits(old(user.repos[name].files), codeFiles, round)
            && repo.pages == (if old(user.repos[name].pages).None? && !pagesRefused then Some(MainRoot)
                              else old(user.repos[name].pages))
            && (r.Success? <==> repo.history != []))
      // An existing repository whose lookup failed: creation is refused.
      && (name in old(user.repos) && lookupFails ==>
            && r == Failure(Conflict) && repo == null && user.repos == old(user.repos)
            && unchanged(old(user.repos)[name]))
      // A new repository: created and seeded, then published.
      && (name !in old(user.repos) ==>
            && repo != null && fresh(repo) && user.repos == old(user.repos)[name := repo]
            && (r.Success? <==> LicensePath !in Paths(codeFiles) && ReadmePath !in Paths(codeFiles))
            && (r.Success? ==>
                  && repo.files == SeededFiles(task, codeFiles, username)
                  && repo.history == SeedCommits(codeFiles)
                  && repo.pages == (if pagesRefused then None else Some(MainRoot)))
            // A refused create is not rolled back.
            && (r.Failure? ==> && repo.pages == None
                               && exists i :: SeedStoppedAt(repo.files, repo.history, codeFiles, MitLicense(username), i)))
      // The summary: newest commit and the static-site address.
      && (r.Success? ==> repo != null && r.value == RepoInfo(repo.htmlUrl, |repo.history| - 1, PagesUrl(user.login, name)))
  {
    var name := RepoName(task, round);
    var existing := user.GetRepo(name, lookupFails);
    if existing.Failure? {
      var created := user.CreateRepo(name);
      if created.Failure? {
        return Failure(created.error), null;
      }
      repo := created.value;
      var seeded := SeedRepository(repo, task, codeFiles, username);
      if seeded.Fail? {
        return Failure(seeded.error), repo;
      }
    } else {
      repo := existing.value;
      UpsertFiles(repo, codeFiles, round);
    }
    r := Publish(repo, PagesUrl(user.login, name), pagesRefused);
  }

  /** `update_readme` (lines 122-138): generate the README text, then
      upsert README.md. A failed generation changes nothing. */
  method UpdateReadme(repo: Repository, complete: CodeGenerator.ReadmePrompt -> Result<string, string>,
                      task: string, brief: string, repoUrl: string, pagesUrl: string)
    returns (r: Outcome<string>)
    modifies repo
    ensures repo.pages == old(repo.pages)
    ensures var generated := CodeGenerator.GenerateReadme(complete, task, brief, repoUrl, pagesUrl);
      && (generated.Failure? ==>
            r == Fail(generated.error) && repo.files == old(repo.files) && repo.history == old(repo.history))
      && (generated.Success? ==>
            && r == Pass
            && repo.files == old(repo.files)[ReadmePath := generated.value]
            && repo.history == old(repo.history)
                               + [Commit(ReadmePath, if ReadmePath in old(repo.files) then "Update README" else "Add README")])
    // Every other path keeps its presence and its content.
    ensures forall p :: p != ReadmePath ==> (p in repo.files <==> p in old(repo.files))
    ensures forall p :: p != ReadmePath && p in old(repo.files) ==> repo.files[p] == old(repo.files)[p]
  {
    var generated := CodeGenerator.GenerateReadme(complete, task, brief, repoUrl, pagesUrl);
    if generated.Failure? {
      return Fail(generated.error);
    }
    PutFile(repo, ReadmePath, generated.value, "Update README", "Add README");
    r := Pass;
  }

  /** After an upsert, each code path holds its new content. */
  lemma UpsertWritesEveryPath(before: map<string, string>, codeFiles: seq<(string, string)>, k: nat)
    requires DistinctPaths(codeFiles) && k < |codeFiles|
    ensures codeFiles[k].0 in before + AsMap(codeFiles)
    ensures (before + AsMap(codeFiles))[codeFiles[k].0] == codeFiles[k].1
  {
    AsMapLookup(codeFiles, k);
  }

  /** An upsert leaves every other path, LICENSE and README.md included,
      as it was: present with the same content, or absent. */
  lemma UpsertKeepsOtherPaths(before: map<string, string>, codeFiles: seq<(string, string)>, p: string)
    requires p !in Paths(codeFiles)
    ensures p in before + AsMap(codeFiles) <==> p in before
    ensures p in before ==> (before + AsMap(codeFiles))[p] == before[p]
  {
    AsMapKeys(codeFiles);
  }
}
