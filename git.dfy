/** pwcli's Git wrapper as unittests/test_git.py pins it down: reading the
    current branch from the output of `git branch`, and `git am` suppressed
    in dry-run mode. */
module GitCli {
  import opened Wrappers
  import opened Text

  const Marker: string := "* "

  predicate Marked(line: string) {
    StartsWith(line, Marker)
  }

  /** Line i is the first marked line and names `branch`. */
  predicate FirstMarkedAt(lines: seq<string>, i: int, branch: string) {
    && 0 <= i < |lines|
    && lines[i] == Marker + branch
    && forall j :: 0 <= j < i ==> !Marked(lines[j])
  }

  /** The position of the first marked line. */
  function FirstMarkedIndex(lines: seq<string>): (r: Option<nat>)
    ensures r.None? <==> forall i :: 0 <= i < |lines| ==> !Marked(lines[i])
    ensures r.Some? ==> r.value < |lines| && Marked(lines[r.value])
    ensures r.Some? ==> forall j :: 0 <= j < r.value ==> !Marked(lines[j])
  {
    if lines == [] then None
    else if Marked(lines[0]) then Some(0)
    else
      assert forall i :: 1 <= i < |lines| ==> lines[i] == lines[1..][i - 1];
      match FirstMarkedIndex(lines[1..])
      case None => None
      case Some(i) => Some(i + 1)
  }

  /** The branch named by the first marked line, without its marker. */
  function FirstMarked(lines: seq<string>): (r: Option<string>)
    ensures r.Some? <==> exists i :: 0 <= i < |lines| && Marked(lines[i])
    ensures r.Some? ==> exists i :: FirstMarkedAt(lines, i, r.value)
  {
    match FirstMarkedIndex(lines)
    case None => None
    case Some(i) =>
      var line := lines[i];
      assert line == Marker + line[|Marker|..];
      assert FirstMarkedAt(lines, i, line[|Marker|..]);
      Some(line[|Marker|..])
  }

  /** get_branch: the current branch is the line of `git branch` output
      marked with "* ", without the marker; None when no line is marked. */
  function GetBranch(output: string): (r: Option<string>)
    ensures (exists i :: 0 <= i < |Split(output, '\n')| && Marked(Split(output, '\n')[i])) ==> r.Some?
    ensures r.Some? ==> exists i :: FirstMarkedAt(Split(output, '\n'), i, r.value)
  {
    FirstMarked(Split(output, '\n'))
  }

  /** The first marked line is the one that is marked with no marked line
      before it. */
  lemma FirstMarkedIndexIs(lines: seq<string>, k: nat)
    requires k < |lines| && Marked(lines[k])
    requires forall j :: 0 <= j < k ==> !Marked(lines[j])
    ensures FirstMarkedIndex(lines) == Some(k)
  {
    var r := FirstMarkedIndex(lines);
    assert r.Some?;
    assert !(r.value < k);
  }

  /** Unmarked lines before the marked one do not change the answer. */
  lemma UnmarkedBefore(before: seq<string>, lines: seq<string>)
    requires forall i :: 0 <= i < |before| ==> !Marked(before[i])
    ensures FirstMarked(before + lines) == FirstMarked(lines)
  {
    var s := before + lines;
    match FirstMarkedIndex(lines)
    case None =>
      forall i | 0 <= i < |s| ensures !Marked(s[i]) {
        if i >= |before| { assert s[i] == lines[i - |before|]; }
      }
    case Some(i) =>
      assert s[|before| + i] == lines[i];
      FirstMarkedIndexIs(s, |before| + i);
  }

  /** Once a marked line has been seen, later lines do not change the
      answer. */
  lemma AnythingAfter(lines: seq<string>, after: seq<string>)
    requires exists i :: 0 <= i < |lines| && Marked(lines[i])
    ensures FirstMarked(lines + after) == FirstMarked(lines)
  {
    var k := FirstMarkedIndex(lines).value;
    var s := lines + after;
    assert s[k] == lines[k];
    FirstMarkedIndexIs(s, k);
  }

  /** The listing of `git branch`: unmarked branches, the current one, more
      unmarked branches. Its answer is the current branch. */
  lemma CurrentAmongOthers(before: seq<string>, current: string, after: seq<string>)
    requires forall i :: 0 <= i < |before| ==> !Marked(before[i])
    ensures FirstMarked(before + [Marker + current] + after) == Some(current)
  {
    var marked := [Marker + current];
    assert Marked(marked[0]) && (Marker + current)[|Marker|..] == current;
    AnythingAfter(marked, after);
    assert before + marked + after == before + (marked + after);
    UnmarkedBefore(before, marked + after);
  }

  /** test_get_branch: the output lists aaa and bbb, then the current
      branch foo, then ccc. */
  lemma GetBranchExample(output: string)
    requires output == "  aaa\n  bbb\n* foo\n  ccc\n"
    ensures GetBranch(output) == Some("foo")
  {
    var lines := ["  aaa", "  bbb"] + [Marker + "foo"] + ["  ccc", ""];
    assert Marker + "foo" == "* foo";
    ListingLines(output, lines);
    assert !Marked("  aaa") && !Marked("  bbb");
    CurrentAmongOthers(["  aaa", "  bbb"], "foo", ["  ccc", ""]);
  }

  lemma ListingLines(output: string, lines: seq<string>)
    requires output == "  aaa\n  bbb\n* foo\n  ccc\n"
    requires lines == ["  aaa", "  bbb", "* foo", "  ccc", ""]
    ensures Split(output, '\n') == lines
  {
    JoinCons("  aaa", ["  bbb", "* foo", "  ccc", ""], '\n');
    JoinCons("  bbb", ["* foo", "  ccc", ""], '\n');
    JoinCons("* foo", ["  ccc", ""], '\n');
    JoinTwo("  ccc", "", '\n');
    assert lines == ["  aaa"] + ["  bbb", "* foo", "  ccc", ""];
    ListingText();
    SplitJoin(lines, '\n');
  }

  lemma ListingText()
    ensures "  aaa" + ['\n'] + ("  bbb" + ['\n'] + ("* foo" + ['\n'] + ("  ccc" + ['\n'] + "")))
      == "  aaa\n  bbb\n* foo\n  ccc\n"
  {
  }


  /** The repository side of `git am -s`: the mailboxes handed to it, in
      order. */
  class Git {
    const dryRun: bool
    var applied: seq<string>

    constructor(dryRun: bool)
      ensures this.dryRun == dryRun && applied == []
    {
      this.dryRun := dryRun;
      applied := [];
    }

    /** am: apply the mailbox as given, or, in dry-run mode, leave the
        repository alone. */
    method Am(mbox: string)
      modifies this
      ensures dryRun ==> applied == old(applied)
      ensures !dryRun ==> applied == old(applied) + [mbox]
    {
      if !dryRun {
        applied := applied + [mbox];
      }
    }
  }

  /** test_am: the repository receives the mailbox unchanged. */
  method AmScenario() returns (applied: seq<string>)
    ensures applied == ["dummy mbox file"]
  {
    var git := new Git(false);
    git.Am("dummy mbox file");
    applied := git.applied;
  }

  /** test_am_dry_run: nothing reaches the repository. */
  method AmDryRunScenario() returns (applied: seq<string>)
    ensures applied == []
  {
    var git := new Git(true);
    git.Am("dummy mbox file");
    applied := git.applied;
  }
}
