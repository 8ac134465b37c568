/** The in-memory stand-in for git that the command tests run pwcli against
    (stubs/stubslib.py): commits read from a content-addressed object store,
    a commit index file listing the ids of the head branch in order, a
    branch list and a configuration table. */
module StubGit {
  import opened Wrappers
  import opened Text

  /** What the stub raises: IOError for a file it cannot open (named by its
      path relative to the git directory), ValueError for an unknown commit or
      option, TypeError when an mbox has no Subject header. */
  datatype Error = IOError(path: string) | ValueError(message: string) | TypeError

  /** A commit: its id and the mbox text stored under that id. */
  datatype GitCommit = GitCommit(id: string, mbox: string)

  /** `'%.12s' % id` keeps at most this many characters. */
  const AbbrevLength: nat := 12

  /** GitCommit.abbrev_id: the first twelve characters of the id, or the
      whole id when it is shorter. */
  function AbbrevId(c: GitCommit): (r: string)
    ensures |r| == if |c.id| < AbbrevLength then |c.id| else AbbrevLength
    ensures StartsWith(c.id, r)
  {
    if |c.id| <= AbbrevLength then c.id else c.id[..AbbrevLength]
  }

  // ---------------------------------------------------------------------
  // re.sub('\[.*\]', '', subject)
  // ---------------------------------------------------------------------

  /** Length of the first line of `s`: `.` in a Python regular expression
      matches anything but a newline. */
  function LineLength(s: string): (k: nat)
    ensures k <= |s|
    ensures forall i :: 0 <= i < k ==> s[i] != '\n'
    ensures k < |s| ==> s[k] == '\n'
  {
    if s == [] || s[0] == '\n' then 0 else 1 + LineLength(s[1..])
  }

  /** The index of the last `]` in s[1..k], or 0 when there is none. */
  function LastClose(s: string, k: nat): (j: nat)
    requires k <= |s|
    ensures j == 0 || (j < k && s[j] == ']')
    ensures forall i :: j < i < k && 0 < i ==> s[i] != ']'
  {
    if k <= 1 then 0
    else if s[k - 1] == ']' then k - 1
    else LastClose(s, k - 1)
  }

  /** Length of the match of `\[.*\]` at the start of `s`, if there is one.
      The star is greedy, so the match runs from the `[` to the last `]` on
      the first line. */
  function TagMatch(s: string): (m: Option<nat>)
    ensures m.Some? ==> 2 <= m.value <= LineLength(s) && s[0] == '[' && s[m.value - 1] == ']'
    ensures m.Some? ==> forall i :: m.value <= i < LineLength(s) ==> s[i] != ']'
    ensures m.None? ==> s == [] || s[0] != '[' || forall i :: 0 < i < LineLength(s) ==> s[i] != ']'
  {
    if s != [] && s[0] == '[' then
      var j := LastClose(s, LineLength(s));
      if j > 0 then Some(j + 1) else None
    else None
  }

  /** `re.sub('\[.*\]', '', s)`: the string is scanned from the left; each
      match is deleted and the scan goes on after it; a character where no
      match starts is kept. */
  function RemoveTags(s: string): (r: string)
    ensures |r| <= |s|
    decreases |s|
  {
    if s == [] then []
    else
      match TagMatch(s)
      case Some(m) => RemoveTags(s[m..])
      case None => [s[0]] + RemoveTags(s[1..])
  }

  /** The substitution works line by line: a match never crosses a
      newline, so the lines on either side of one are cleaned apart. */
  lemma {:induction false} RemoveTagsLines(a: string, b: string)
    ensures RemoveTags(a + "\n" + b) == RemoveTags(a) + "\n" + RemoveTags(b)
    decreases |a|
  {
    var s := a + "\n" + b;
    if a == [] {
      assert s == "\n" + b && s[1..] == b;
      assert TagMatch(s).None?;
    } else {
      TagMatchBreak(a, b);
      match TagMatch(a)
      case Some(m) =>
        assert s[m..] == a[m..] + "\n" + b;
        RemoveTagsLines(a[m..], b);
      case None =>
        assert s[0] == a[0] && s[1..] == a[1..] + "\n" + b;
        RemoveTagsLines(a[1..], b);
    }
  }

  /** A match at the start of a line ends on that line. */
  lemma TagMatchBreak(a: string, b: string)
    requires a != []
    ensures TagMatch(a + "\n" + b) == TagMatch(a)
  {
    var s := a + "\n" + b;
    LineLengthBreak(a, b);
    var k := LineLength(a);
    assert s[..k] == a[..k];
    LastCloseSame(s, a, k);
  }

  lemma {:induction false} LineLengthBreak(a: string, b: string)
    ensures LineLength(a + "\n" + b) == LineLength(a)
  {
    var s := a + "\n" + b;
    if a != [] && a[0] != '\n' {
      assert s[0] == a[0] && s[1..] == a[1..] + "\n" + b;
      LineLengthBreak(a[1..], b);
    }
  }

  /** LastClose looks only at the first k characters. */
  lemma {:induction false} LastCloseSame(s: string, t: string, k: nat)
    requires k <= |s| && k <= |t| && s[..k] == t[..k]
    ensures LastClose(s, k) == LastClose(t, k)
  {
    if k > 1 {
      assert s[k - 1] == s[..k][k - 1] && t[k - 1] == t[..k][k - 1];
      assert s[..k - 1] == s[..k][..k - 1] && t[..k - 1] == t[..k][..k - 1];
      LastCloseSame(s, t, k - 1);
    }
  }

  /** No `[` in `s` is followed, anywhere later, by a `]`. */
  predicate NoTag(s: string) {
    forall p, q :: 0 <= p < q < |s| && s[p] == '[' ==> s[q] != ']'
  }

  /** A string in which no `[` is followed by a `]` has no tag to remove. */
  lemma {:induction false} UntaggedUnchanged(s: string)
    requires NoTag(s)
    ensures RemoveTags(s) == s
  {
    if s != [] {
      assert TagMatch(s).None? by {
        if s[0] == '[' {
          assert forall i :: 0 < i < LineLength(s) ==> s[i] != ']';
        }
      }
      var t := s[1..];
      assert NoTag(t) by {
        forall p, q | 0 <= p < q < |t| && t[p] == '[' ensures t[q] != ']' {
          assert s[p + 1] == t[p] && s[q + 1] == t[q];
        }
      }
      UntaggedUnchanged(t);
      assert [s[0]] + t == s;
    }
  }

  /** On a one-line subject the greedy pattern deletes everything from the
      first `[` through the last `]`, when that `]` comes after the `[`. */
  lemma {:induction false} RemoveTagsSingleLine(s: string, i: nat, j: nat)
    requires '\n' !in s
    requires i < j < |s| && s[i] == '[' && s[j] == ']'
    requires forall k :: 0 <= k < i ==> s[k] != '['
    requires forall k :: j < k < |s| ==> s[k] != ']'
    ensures RemoveTags(s) == s[..i] + s[j + 1..]
    decreases i
  {
    if i == 0 {
      assert LineLength(s) == |s| by { LineOfSingleLine(s); }
      var l := LastClose(s, |s|);
      assert l == j;
      assert TagMatch(s) == Some(j + 1);
      var t := s[j + 1..];
      assert NoTag(t) by {
        forall p, q | 0 <= p < q < |t| && t[p] == '[' ensures t[q] != ']' {
          assert t[q] == s[j + 1 + q];
        }
      }
      UntaggedUnchanged(t);
      assert s[..0] == [];
    } else {
      assert TagMatch(s).None?;
      var t := s[1..];
      assert '\n' !in t by {
        forall k | 0 <= k < |t| ensures t[k] != '\n' { assert t[k] == s[k + 1]; }
      }
      RemoveTagsSingleLine(t, i - 1, j - 1);
      assert t[..i - 1] == s[1..i] && t[j..] == s[j + 1..];
      assert [s[0]] + s[1..i] == s[..i];
    }
  }

  lemma LineOfSingleLine(s: string)
    requires '\n' !in s
    ensures LineLength(s) == |s|
  {
  }

  // ---------------------------------------------------------------------
  // GitCommit
  // ---------------------------------------------------------------------

  /** GitCommit.get_subject. `subjectOf` is the RFC 5322 parser's value of
      the Subject header of an mbox, None when there is no such header (the
      stub then fails in re.sub with a TypeError). The subject is that value
      with its tags removed and surrounding whitespace stripped. */
  function Subject(c: GitCommit, subjectOf: string -> Option<string>): (r: Result<string, Error>)
    ensures r.Ok? <==> subjectOf(c.mbox).Some?
    ensures r.Err? ==> r.error == TypeError
    ensures r.Ok? ==> r.value == [] || (!IsSpace(r.value[0]) && !IsSpace(r.value[|r.value| - 1]))
    ensures r.Ok? ==> |r.value| <= |subjectOf(c.mbox).value|
  {
    match subjectOf(c.mbox)
    case None => Err(TypeError)
    case Some(header) => Ok(Strip(RemoveTags(header)))
  }

  /** On a one-line Subject header, get_subject deletes from the first `[`
      to the last `]` and strips what is left; a header where no `]` follows
      a `[` is only stripped. */
  lemma SubjectSingleLine(c: GitCommit, subjectOf: string -> Option<string>, i: nat, j: nat)
    requires subjectOf(c.mbox).Some? && '\n' !in subjectOf(c.mbox).value
    requires var h := subjectOf(c.mbox).value;
      i < j < |h| && h[i] == '[' && h[j] == ']' &&
      (forall k :: 0 <= k < i ==> h[k] != '[') && (forall k :: j < k < |h| ==> h[k] != ']')
    ensures var h := subjectOf(c.mbox).value;
      Subject(c, subjectOf) == Ok(Strip(h[..i] + h[j + 1..]))
  {
    RemoveTagsSingleLine(subjectOf(c.mbox).value, i, j);
  }

  lemma SubjectUntagged(c: GitCommit, subjectOf: string -> Option<string>)
    requires subjectOf(c.mbox).Some?
    requires NoTag(subjectOf(c.mbox).value)
    ensures Subject(c, subjectOf) == Ok(Strip(subjectOf(c.mbox).value))
  {
    UntaggedUnchanged(subjectOf(c.mbox).value);
  }

  /** GitCommit.get_oneline: the abbreviated id, one space, the subject. */
  function Oneline(c: GitCommit, subjectOf: string -> Option<string>): (r: Result<string, Error>)
    ensures r.Ok? <==> Subject(c, subjectOf).Ok?
    ensures r.Err? ==> r.error == TypeError
    ensures r.Ok? ==> |r.value| == |AbbrevId(c)| + 1 + |Subject(c, subjectOf).value|
  {
    match Subject(c, subjectOf)
    case Err(e) => Err(e)
    case Ok(subject) => Ok(AbbrevId(c) + " " + subject)
  }

  /** Reading a one-line summary back: for an id without spaces, the text
      before the first space is the abbreviated id and the rest, rejoined, is
      the subject. */
  lemma {:induction false} OnelineSplits(c: GitCommit, subjectOf: string -> Option<string>)
    requires ' ' !in c.id
    requires Subject(c, subjectOf).Ok?
    ensures var pieces := Split(Oneline(c, subjectOf).value, ' ');
      pieces[0] == AbbrevId(c) && Join(pieces[1..], ' ') == Subject(c, subjectOf).value
  {
    var a := AbbrevId(c);
    var subject := Subject(c, subjectOf).value;
    assert ' ' !in a by {
      forall k | 0 <= k < |a| ensures a[k] != ' ' { assert a[k] == c.id[k]; }
    }
    SplitAfterWord(a, ' ', subject);
    JoinSplit(subject, ' ');
    assert ([a] + Split(subject, ' '))[1..] == Split(subject, ' ');
  }

  // ---------------------------------------------------------------------
  // GitRepository
  // ---------------------------------------------------------------------

  /** The ids load_commits reads: the index up to (not including) the first
      id whose object file is missing, where the stub stops with an IOError. */
  function LoadablePrefix(ids: seq<string>, objects: map<string, string>): (p: seq<string>)
    ensures |p| <= |ids| && p == ids[..|p|]
    ensures forall k :: 0 <= k < |p| ==> p[k] in objects
    ensures |p| < |ids| ==> ids[|p|] !in objects
  {
    if ids == [] || ids[0] !in objects then []
    else [ids[0]] + LoadablePrefix(ids[1..], objects)
  }

  /** The prefix that load_commits reads is the one that stops at the first
      missing object. */
  lemma {:induction false} LoadablePrefixAt(ids: seq<string>, objects: map<string, string>, n: nat)
    requires n <= |ids|
    requires forall k :: 0 <= k < n ==> ids[k] in objects
    requires n == |ids| || ids[n] !in objects
    ensures LoadablePrefix(ids, objects) == ids[..n]
  {
    if n > 0 {
      LoadablePrefixAt(ids[1..], objects, n - 1);
      assert [ids[0]] + ids[1..][..n - 1] == ids[..n];
    } else if ids != [] {
      assert ids[0] !in objects;
    }
  }

  /** The commits of the head branch after loading `ids`, in index order. */
  function CommitsOf(ids: seq<string>, objects: map<string, string>): (cs: seq<GitCommit>)
    requires forall k :: 0 <= k < |ids| ==> ids[k] in objects
    ensures |cs| == |ids|
    ensures forall k :: 0 <= k < |ids| ==> cs[k] == GitCommit(ids[k], objects[ids[k]])
  {
    seq(|ids|, k requires 0 <= k < |ids| => GitCommit(ids[k], objects[ids[k]]))
  }

  /** The commit table after load_commits reads `ids` into `table`: each id
      in turn is entered with the commit read from its object file. */
  function LoadInto(table: map<string, GitCommit>, ids: seq<string>, objects: map<string, string>): map<string, GitCommit>
    requires forall k :: 0 <= k < |ids| ==> ids[k] in objects
  {
    if ids == [] then table
    else
      var last := ids[|ids| - 1];
      LoadInto(table, ids[..|ids| - 1], objects)[last := GitCommit(last, objects[last])]
  }

  /** After the load, the table holds every id read, under that id, with
      the text of its object file; any other entry is as it was. */
  lemma {:induction false} LoadIntoTable(table: map<string, GitCommit>, ids: seq<string>, objects: map<string, string>)
    requires forall k :: 0 <= k < |ids| ==> ids[k] in objects
    ensures forall id :: id in LoadInto(table, ids, objects) <==> id in table || id in ids
    ensures forall id :: id in ids ==> LoadInto(table, ids, objects)[id] == GitCommit(id, objects[id])
    ensures forall id :: id !in ids && id in table ==> LoadInto(table, ids, objects)[id] == table[id]
  {
    if ids != [] {
      var init := ids[..|ids| - 1];
      LoadIntoTable(table, init, objects);
      assert ids == init + [ids[|ids| - 1]];
    }
  }

  /** Reading one more id extends the branch by one commit and the table by
      one entry. */
  lemma LoadStep(before: map<string, GitCommit>, ids: seq<string>, objects: map<string, string>, i: nat)
    requires i < |ids|
    requires forall k :: 0 <= k <= i ==> ids[k] in objects
    ensures CommitsOf(ids[..i + 1], objects) == CommitsOf(ids[..i], objects) + [GitCommit(ids[i], objects[ids[i]])]
    ensures LoadInto(before, ids[..i + 1], objects)
         == LoadInto(before, ids[..i], objects)[ids[i] := GitCommit(ids[i], objects[ids[i]])]
  {
    assert ids[..i + 1][..i] == ids[..i];
  }

  /** add_commit followed by a fresh load: the head branch is the old one
      with the new commit at its end. The store is content-addressed, so an
      object already stored under the new id holds the same text. */
  lemma {:induction false} AddCommitThenLoad(index: seq<string>, objects: map<string, string>, h: string, buf: string)
    requires LoadablePrefix(index, objects) == index
    requires h in objects ==> objects[h] == buf
    ensures LoadablePrefix(index + [h], objects[h := buf]) == index + [h]
    ensures CommitsOf(index + [h], objects[h := buf]) == CommitsOf(index, objects) + [GitCommit(h, buf)]
  {
    var objects' := objects[h := buf];
    forall k | 0 <= k < |index| ensures index[k] in objects && objects'[index[k]] == objects[index[k]] {
      assert LoadablePrefix(index, objects)[k] in objects;
    }
    LoadablePrefixAt(index + [h], objects', |index| + 1);
    assert (index + [h])[..|index| + 1] == index + [h];
  }

  /** cherry_pick followed by a fresh load: the picked commit is appended to
      the head branch, read from its object file. */
  lemma {:induction false} CherryPickThenLoad(index: seq<string>, objects: map<string, string>, id: string)
    requires LoadablePrefix(index, objects) == index
    requires id in objects
    ensures LoadablePrefix(index + [id], objects) == index + [id]
    ensures CommitsOf(index + [id], objects) == CommitsOf(index, objects) + [GitCommit(id, objects[id])]
  {
    forall k | 0 <= k < |index| ensures index[k] in objects {
      assert LoadablePrefix(index, objects)[k] in objects;
    }
    LoadablePrefixAt(index + [id], objects, |index| + 1);
    assert (index + [id])[..|index| + 1] == index + [id];
  }

  /** The option table RawConfigParser read from the git directory's config
      file, keyed by section and by option name, which RawConfigParser folds
      to lower case when it reads the file and when it is asked. */
  type Config = map<(string, string), string>

  class GitRepository {
    /** The branch load_commits fills. */
    const head: string
    /** hashlib.sha1(buf).hexdigest(), as a function of the buffer. */
    const sha1: string -> string
    const config: Config
    /** The lines of the branches file (readlines), None when it is missing. */
    const branchesFile: Option<seq<string>>
    /** The lines of objects/commits; a missing file reads as no lines. */
    var index: seq<string>
    /** The files objects/<id>: id to mbox text. */
    var objects: map<string, string>
    /** Branch name to its commits, in order. */
    var branches: map<string, seq<GitCommit>>
    /** Every commit read, by id. */
    var commits: map<string, GitCommit>

    /** The head branch exists and each of its commits is the table's entry
        for its id. */
    ghost predicate Valid()
      reads this
    {
      && head in branches
      && forall c :: c in branches[head] ==> c.id in commits && commits[c.id] == c
    }

    /** The part of __init__ before load_commits: the files as given, the
        head named 'master', both tables empty. */
    constructor (sha1: string -> string, config: Config, index: seq<string>,
                 objects: map<string, string>, branchesFile: Option<seq<string>>)
      ensures this.head == "master" && this.sha1 == sha1 && this.config == config
      ensures this.index == index && this.objects == objects && this.branchesFile == branchesFile
      ensures this.branches == map[] && this.commits == map[]
    {
      this.head := "master";
      this.sha1 := sha1;
      this.config := config;
      this.index := index;
      this.objects := objects;
      this.branchesFile := branchesFile;
      this.branches := map[];
      this.commits := map[];
    }

    /** GitRepository(gitdir): set up the repository and load its commits.
        `r` is the IOError that escapes __init__ when an object listed in the
        index is missing. */
    static method Open(sha1: string -> string, config: Config, index: seq<string>,
                       objects: map<string, string>, branchesFile: Option<seq<string>>)
      returns (repo: GitRepository, r: Outcome<Error>)
      ensures fresh(repo) && repo.Valid()
      ensures repo.head == "master" && repo.sha1 == sha1 && repo.config == config
      ensures repo.index == index && repo.objects == objects && repo.branchesFile == branchesFile
      ensures var p := LoadablePrefix(index, objects);
        && repo.branches == map["master" := CommitsOf(p, objects)]
        && repo.commits == LoadInto(map[], p, objects)
        && (r.Pass? <==> p == index)
    {
      repo := new GitRepository(sha1, config, index, objects, branchesFile);
      r := repo.LoadCommits();
    }

    /** load_commits: empty the head branch, then read the commits named in
        the index, in order, appending each to the head branch and entering
        it in the commit table. It stops with an IOError at the first id
        whose object file is missing; what was read before stays. */
    method LoadCommits() returns (r: Outcome<Error>)
      modifies this`branches, this`commits
      ensures Valid()
      ensures var p := LoadablePrefix(index, objects);
        && branches == old(branches)[head := CommitsOf(p, objects)]
        && commits == LoadInto(old(commits), p, objects)
        && (r.Pass? <==> p == index)
        && (r.Fail? ==> r.error == IOError("objects/" + index[|p|]))
    {
      branches := branches[head := []];
      var ids, objs, h := index, objects, head;
      ghost var before := commits;
      // the head branch and the table as they grow, written back to the
      // fields after each read
      var loaded: seq<GitCommit> := [];
      var table := commits;
      var i := 0;
      while i < |ids|
        invariant 0 <= i <= |ids|
        invariant forall k :: 0 <= k < i ==> ids[k] in objs
        invariant loaded == CommitsOf(ids[..i], objs)
        invariant table == LoadInto(before, ids[..i], objs)
        invariant branches == old(branches)[h := loaded] && commits == table
      {
        var id := ids[i];
        if id !in objs {
          LoadedAt(before, ids, objs, i);
          r := Fail(IOError("objects/" + id));
          return;
        }
        var c := GitCommit(id, objs[id]);
        LoadStep(before, ids, objs, i);
        table := table[id := c];
        loaded := loaded + [c];
        commits := table;
        branches := branches[h := loaded];
        i := i + 1;
      }
      LoadedAt(before, ids, objs, i);
      r := Pass;
    }

    /** Where the loop of load_commits stops, what it has read is the
        loadable prefix, and each commit read is in the table. */
    static lemma LoadedAt(before: map<string, GitCommit>, index: seq<string>, objects: map<string, string>, n: nat)
      requires n <= |index|
      requires forall k :: 0 <= k < n ==> index[k] in objects
      requires n == |index| || index[n] !in objects
      ensures LoadablePrefix(index, objects) == index[..n]
      ensures n == |index| <==> index[..n] == index
      ensures var t := LoadInto(before, index[..n], objects);
        forall c :: c in CommitsOf(index[..n], objects) ==> c.id in t && t[c.id] == c
    {
      LoadablePrefixAt(index, objects, n);
      var ids := index[..n];
      LoadIntoTable(before, ids, objects);
      var cs := CommitsOf(ids, objects);
      forall c | c in cs ensures c.id in ids && c == GitCommit(c.id, objects[c.id]) {
        var k :| 0 <= k < |cs| && cs[k] == c;
        assert c.id == ids[k];
      }
    }

    /** get_head_commits: the head branch, each commit of which is in the
        commit table under its own id. */
    function HeadCommits(): (r: seq<GitCommit>)
      reads this
      requires Valid()
      ensures forall c :: c in r ==> c.id in commits && commits[c.id] == c
    {
      branches[head]
    }

    /** get_branches: one entry per line of the branches file, in order,
        with surrounding whitespace stripped; IOError when there is no such
        file. */
    method GetBranches() returns (r: Result<seq<string>, Error>)
      ensures branchesFile.None? ==> r == Err(IOError("branches"))
      ensures branchesFile.Some? ==> r.Ok? && |r.value| == |branchesFile.value|
      ensures branchesFile.Some? ==> forall k :: 0 <= k < |r.value| ==> r.value[k] == Strip(branchesFile.value[k])
    {
      if branchesFile.None? {
        return Err(IOError("branches"));
      }
      var lines := branchesFile.value;
      var result: seq<string> := [];
      var i := 0;
      while i < |lines|
        invariant 0 <= i <= |lines|
        invariant |result| == i
        invariant forall k :: 0 <= k < i ==> result[k] == Strip(lines[k])
      {
        result := result + [Strip(lines[i])];
        i := i + 1;
      }
      return Ok(result);
    }

    /** add_commit: append the SHA-1 of `buf` as one new line of the index
        and store `buf` as the object of that id. The in-memory branches and
        commit table are not touched. */
    method AddCommit(buf: string)
      requires Valid()
      modifies this`index, this`objects
      ensures Valid()
      ensures index == old(index) + [sha1(buf)]
      ensures objects == old(objects)[sha1(buf) := buf]
    {
      var sha1sum := sha1(buf);
      index := index + [sha1sum];
      objects := objects[sha1sum := buf];
    }

    /** cherry_pick: a commit the table does not know is a ValueError and
        changes nothing; a known one has its id appended to the index, and no
        object is written. */
    method CherryPick(id: string) returns (r: Outcome<Error>)
      requires Valid()
      modifies this`index
      ensures Valid()
      ensures id !in commits ==> r == Fail(ValueError("Commit " + id + " not found.")) && index == old(index)
      ensures id in commits ==> r == Pass && index == old(index) + [id]
    {
      if id !in commits {
        return Fail(ValueError("Commit " + id + " not found."));
      }
      index := index + [id];
      return Pass;
    }

    /** get_config: the stored value of the option, or ValueError when the
        section has no such option. */
    function GetConfig(section: string, name: string): (r: Result<string, Error>)
      ensures r.Ok? <==> (section, Lower(name)) in config
      ensures r.Ok? ==> r.value == config[(section, Lower(name))]
      ensures r.Err? ==> r.error == ValueError("Config not found")
    {
      if (section, Lower(name)) !in config then Err(ValueError("Config not found"))
      else Ok(config[(section, Lower(name))])
    }

    /** Option names are matched without regard to case: asking for a name
        and for its lower-case form gives the same answer. */
    lemma GetConfigFoldsCase(section: string, name: string)
      ensures GetConfig(section, name) == GetConfig(section, Lower(name))
    {
      LowerIdempotent(name);
    }
  }
}
