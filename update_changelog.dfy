/**
 * `updateChangelog`: prepend a per-release changelog fragment onto the
 * project's cumulative changelog, at most once per release tag, and
 * commit the result.
 *
 * The decision is the pure function `Decide` over the three texts read
 * from disk; `Workspace.Update` is the read-modify-write shell around it,
 * over an in-memory file store and commit log.
 */
module UpdateChangelog {
  import opened JsString

  /** What one run decides, given the tag-file, fragment and changelog texts. */
  datatype Outcome =
    | MissingReleaseTag
      // the trimmed tag-file text is empty: nothing is read further, nothing changes
    | FragmentVersionMismatch(tag: string)
      // the fragment lacks the marker for `tag`: nothing changes
    | Skip(tag: string)
      // the changelog already has the marker for `tag`: nothing changes
    | Write(tag: string, content: string, message: string)
      // `content` replaces the changelog and a commit with `message` is made

  /** The text searched for in both changelogs: the tag in square brackets. */
  function Marker(tag: string): string
  {
    "[" + tag + "]"
  }

  /** The commit message of a release. */
  function CommitMessage(tag: string): string
  {
    "chore(release): " + tag
  }

  /** The fragment without trailing whitespace, a blank line, then the old changelog without leading whitespace. */
  function Merge(fragment: string, changelog: string): string
  {
    TrimEnd(fragment) + "\n\n" + TrimStart(changelog)
  }

  /**
   * The decision `updateChangelog` takes: the tag is the trimmed tag-file
   * text; an empty tag stops the run; a fragment without the tag's marker
   * stops it; a changelog that already has the marker is left alone;
   * otherwise the fragment is prepended.
   */
  function Decide(tagRaw: string, fragment: string, changelog: string): (o: Outcome)
    ensures o.MissingReleaseTag? <==> AllWs(tagRaw)
    ensures !o.MissingReleaseTag? ==> o.tag == Trim(tagRaw) && Contains(fragment, Marker(o.tag)) == !o.FragmentVersionMismatch?
    ensures o.Skip? || o.Write? ==> (o.Skip? <==> Contains(changelog, Marker(o.tag)))
    ensures o.Write? ==> o.content == Merge(fragment, changelog) && o.message == CommitMessage(o.tag)
  {
    var tag := Trim(tagRaw);
    TrimEmpty(tagRaw);
    if tag == [] then MissingReleaseTag
    else if !Contains(fragment, Marker(tag)) then FragmentVersionMismatch(tag)
    else if IndexOf(changelog, Marker(tag)) > -1 then Skip(tag)
    else Write(tag, Merge(fragment, changelog), CommitMessage(tag))
  }

  /**
   * Whenever a tag is used (in the marker and in the commit message), it
   * is the trimmed tag-file text: a non-empty slice of that text with only
   * whitespace around it and none at either of its own ends; the commit
   * message is "chore(release): " followed by it.
   */
  lemma TagIsTrimmed(tagRaw: string, fragment: string, changelog: string)
    requires !Decide(tagRaw, fragment, changelog).MissingReleaseTag?
    ensures var tag := Decide(tagRaw, fragment, changelog).tag;
      tag != [] && !IsWs(tag[0]) && !IsWs(tag[|tag| - 1])
      && exists lo | 0 <= lo <= |tagRaw| - |tag| ::
           tagRaw[lo..lo + |tag|] == tag && AllWs(tagRaw[..lo]) && AllWs(tagRaw[lo + |tag|..])
    ensures var o := Decide(tagRaw, fragment, changelog);
      o.Write? ==> o.message[..16] == "chore(release): " && o.message[16..] == o.tag
  {
    var lo := TrimIsSlice(tagRaw);
  }

  /**
   * The written changelog is the fragment less its trailing whitespace,
   * exactly one blank line, then the old changelog less its leading
   * whitespace: only whitespace is dropped on either side, neither side of
   * the separator carries whitespace of its own, and the old content
   * survives as a suffix.
   */
  lemma WriteLayout(fragment: string, changelog: string)
    ensures var c := Merge(fragment, changelog);
      var head, tail := TrimEnd(fragment), TrimStart(changelog);
      c[..|head|] == head && c[|head|..|head| + 2] == "\n\n" && c[|head| + 2..] == tail
      && (head == [] || !IsWs(head[|head| - 1])) && (tail == [] || !IsWs(tail[0]))
      && head == fragment[..|head|] && AllWs(fragment[|head|..])
      && tail == changelog[|changelog| - |tail|..] && AllWs(changelog[..|changelog| - |tail|])
  {
    var c := Merge(fragment, changelog);
    var head, tail := TrimEnd(fragment), TrimStart(changelog);
    TrimEndSpec(fragment);
    TrimStartSpec(changelog);
    assert c == head + "\n\n" + tail;
    assert c[..|head|] == head;
    assert c[|head| + 2..] == tail;
  }

  /** Merging keeps the marker of the fragment, whose closing bracket is not whitespace. */
  lemma MergeKeepsMarker(fragment: string, changelog: string, tag: string)
    requires Contains(fragment, Marker(tag))
    ensures Contains(Merge(fragment, changelog), Marker(tag))
  {
    var m := Marker(tag);
    TrimEndKeeps(fragment, m);
    var head, rest := TrimEnd(fragment), "\n\n" + TrimStart(changelog);
    ContainsInConcat(head, rest, m);
    assert Merge(fragment, changelog) == head + rest;
  }

  /** The written changelog contains the release's marker. */
  lemma WriteHasMarker(tagRaw: string, fragment: string, changelog: string)
    requires Decide(tagRaw, fragment, changelog).Write?
    ensures var o := Decide(tagRaw, fragment, changelog);
      Contains(o.content, Marker(o.tag))
  {
    var o := Decide(tagRaw, fragment, changelog);
    MergeKeepsMarker(fragment, changelog, o.tag);
  }

  /**
   * Idempotence: running the decision again with the same tag and fragment
   * on the changelog it wrote skips, so the second run changes nothing.
   */
  lemma RerunSkips(tagRaw: string, fragment: string, changelog: string)
    requires Decide(tagRaw, fragment, changelog).Write?
    ensures var o := Decide(tagRaw, fragment, changelog);
      Decide(tagRaw, fragment, o.content) == Skip(o.tag)
  {
    WriteHasMarker(tagRaw, fragment, changelog);
  }

  /** The 1.2.0 fragment of `MergeExample` has its marker and loses its final newline. */
  lemma ExampleFragment(fragment: string)
    requires fragment == "## [1.2.0]\n\nFix bug\n"
    ensures Contains(fragment, Marker("1.2.0"))
    ensures TrimEnd(fragment) == "## [1.2.0]\n\nFix bug"
  {
    assert Marker("1.2.0") == "[1.2.0]";
    assert OccursAt(fragment, "[1.2.0]", 3);
    assert TrimEnd(fragment) == TrimEnd(fragment[..|fragment| - 1]);
    assert !IsWs(fragment[|fragment| - 2]);
  }

  /** The 1.1.0 changelog of `MergeExample` has no 1.2.0 entry and no leading whitespace. */
  lemma ExampleChangelog(changelog: string)
    requires changelog == "## [1.1.0]\n\nOld entry\n"
    ensures !Contains(changelog, Marker("1.2.0"))
    ensures TrimStart(changelog) == changelog
  {
    assert Marker("1.2.0") == "[1.2.0]";
    forall i | 0 <= i <= |changelog| - 7
      ensures !OccursAt(changelog, "[1.2.0]", i)
    {
      assert changelog[i..i + 7][0] == changelog[i];
      assert changelog[i..i + 7][3] == changelog[i + 3];
    }
    assert !IsWs(changelog[0]);
  }

  /**
   * A release 1.2.0 fragment on top of a changelog that ends at 1.1.0:
   * the fragment's trailing newline and the changelog's layout give
   * exactly one blank line between the two entries.
   */
  lemma MergeExample(tagRaw: string, fragment: string, changelog: string)
    requires tagRaw == "1.2.0"
    requires fragment == "## [1.2.0]\n\nFix bug\n" && changelog == "## [1.1.0]\n\nOld entry\n"
    ensures Decide(tagRaw, fragment, changelog)
      == Write("1.2.0", "## [1.2.0]\n\nFix bug\n\n## [1.1.0]\n\nOld entry\n", "chore(release): 1.2.0")
  {
    assert Trim(tagRaw) == "1.2.0";
    ExampleFragment(fragment);
    ExampleChangelog(changelog);
    assert "## [1.2.0]\n\nFix bug" + "\n\n" + changelog == "## [1.2.0]\n\nFix bug\n\n## [1.1.0]\n\nOld entry\n";
  }

  /** A path, relative to the working directory; `path.join` is not modelled. */
  type Path = string

  /** The three path fields of `UpdateChangelogOptions`. */
  datatype Options = Options(inputChangelog: Path, outputChangelog: Path, releaseTagFile: Path)

  /** A commit: the path staged with `git add` and the commit message. */
  datatype Commit = Commit(path: Path, message: string)

  /** What a run of `Workspace.Update` reports. */
  datatype RunResult =
    | Decided(outcome: Outcome)
    | ReadFailed(path: Path)
      // reading the fragment or the changelog failed; the error propagates and nothing changes

  /** `tryReadFile`: the file's text, or the empty string for a missing file. */
  function TryRead(files: map<Path, string>, path: Path): string
  {
    if path in files then files[path] else ""
  }

  /**
   * One run over a file store, in the order the source reads its inputs:
   * the tag file (through `tryReadFile`), the fragment, then the changelog.
   * A missing fragment or changelog is a read failure, reported only when
   * the run gets as far as reading that file.
   */
  function Run(files: map<Path, string>, opts: Options): RunResult
  {
    var tag := Trim(TryRead(files, opts.releaseTagFile));
    if tag == [] then Decided(MissingReleaseTag)
    else if opts.inputChangelog !in files then ReadFailed(opts.inputChangelog)
    else if !Contains(files[opts.inputChangelog], Marker(tag)) then Decided(FragmentVersionMismatch(tag))
    else if opts.outputChangelog !in files then ReadFailed(opts.outputChangelog)
    else Decided(Decide(TryRead(files, opts.releaseTagFile), files[opts.inputChangelog], files[opts.outputChangelog]))
  }

  /**
   * A run reports a read failure exactly when the fragment, or (once the
   * fragment carries the marker) the changelog, is missing; a fragment
   * without the marker stops the run before the changelog is read; with
   * both files present it takes the pure decision on their texts.
   */
  lemma RunDecides(files: map<Path, string>, opts: Options)
    ensures var tagRaw := TryRead(files, opts.releaseTagFile);
      var r := Run(files, opts);
      (r.ReadFailed? <==> (!AllWs(tagRaw) && (opts.inputChangelog !in files
         || (Contains(files[opts.inputChangelog], Marker(Trim(tagRaw))) && opts.outputChangelog !in files))))
      && (r.ReadFailed? ==> r.path == if opts.inputChangelog !in files then opts.inputChangelog else opts.outputChangelog)
      && (AllWs(tagRaw) ==> r == Decided(MissingReleaseTag))
      && (!AllWs(tagRaw) && opts.inputChangelog in files
          && !Contains(files[opts.inputChangelog], Marker(Trim(tagRaw))) ==>
           r == Decided(FragmentVersionMismatch(Trim(tagRaw))))
      && (opts.inputChangelog in files && opts.outputChangelog in files ==>
           r == Decided(Decide(tagRaw, files[opts.inputChangelog], files[opts.outputChangelog])))
  {
    var tagRaw := TryRead(files, opts.releaseTagFile);
    var tag := Trim(tagRaw);
    TrimEmpty(tagRaw);
    if tag != [] && opts.inputChangelog in files && !Contains(files[opts.inputChangelog], Marker(tag)) {
      assert opts.outputChangelog in files ==>
        Decide(tagRaw, files[opts.inputChangelog], files[opts.outputChangelog]) == FragmentVersionMismatch(tag);
    }
  }

  /**
   * Rerunning on the store a Write left behind skips, provided the
   * changelog written is not the tag file itself (were it, the second run
   * would read a different tag). The fragment cannot be the changelog
   * file: a fragment with the marker would make the first run skip.
   */
  lemma RerunSkipsInStore(files: map<Path, string>, opts: Options)
    requires opts.outputChangelog != opts.releaseTagFile
    requires opts.inputChangelog in files && opts.outputChangelog in files
    requires Decide(TryRead(files, opts.releaseTagFile), files[opts.inputChangelog], files[opts.outputChangelog]).Write?
    ensures var tagRaw := TryRead(files, opts.releaseTagFile);
      var o := Decide(tagRaw, files[opts.inputChangelog], files[opts.outputChangelog]);
      var after := files[opts.outputChangelog := o.content];
      Decide(TryRead(after, opts.releaseTagFile), after[opts.inputChangelog], after[opts.outputChangelog]) == Skip(o.tag)
  {
    var tagRaw := TryRead(files, opts.releaseTagFile);
    var fragment := files[opts.inputChangelog];
    var o := Decide(tagRaw, fragment, files[opts.outputChangelog]);
    var after := files[opts.outputChangelog := o.content];
    assert TryRead(after, opts.releaseTagFile) == tagRaw;
    WriteHasMarker(tagRaw, fragment, files[opts.outputChangelog]);
    assert after[opts.inputChangelog] == fragment;
  }

  /** The working directory: its files by path, and the commits made in it. */
  class Workspace {
    var files: map<Path, string>
    var commits: seq<Commit>

    constructor (files: map<Path, string>)
      ensures this.files == files && commits == []
    {
      this.files := files;
      commits := [];
    }

    /**
     * `writeFile(path, content)` followed by `git add path && git commit
     * -m message`: the file now holds `content`, one commit is appended,
     * and nothing else changes.
     */
    method WriteAndCommit(path: Path, content: string, message: string)
      modifies this
      ensures files == old(files)[path := content]
      ensures commits == old(commits) + [Commit(path, message)]
    {
      files := files[path := content];
      commits := commits + [Commit(path, message)];
    }

    /**
     * `updateChangelog(cwd, options)`: read the tag file, stop if its
     * trimmed text is empty; read the fragment, stop if it lacks the
     * marker; read the changelog, stop if it already has the marker;
     * otherwise overwrite the changelog with the merged text and commit it.
     * A failed read stops the run with nothing changed. Only a Write
     * changes the workspace, and then only the changelog file and the
     * commit log.
     */
    method Update(opts: Options) returns (r: RunResult)
      modifies this
      ensures r == Run(old(files), opts)
      ensures r.Decided? && r.outcome.Write? ==>
        files == old(files)[opts.outputChangelog := r.outcome.content]
        && commits == old(commits) + [Commit(opts.outputChangelog, r.outcome.message)]
      ensures !(r.Decided? && r.outcome.Write?) ==> files == old(files) && commits == old(commits)
    {
      var tag := Trim(TryRead(files, opts.releaseTagFile));
      if tag == [] {
        return Decided(MissingReleaseTag);
      }
      if opts.inputChangelog !in files {
        return ReadFailed(opts.inputChangelog);
      }
      var fragment := files[opts.inputChangelog];
      var marker := Marker(tag);
      if !Contains(fragment, marker) {
        return Decided(FragmentVersionMismatch(tag));
      }
      if opts.outputChangelog !in files {
        return ReadFailed(opts.outputChangelog);
      }
      var changelog := files[opts.outputChangelog];
      if IndexOf(changelog, marker) > -1 {
        return Decided(Skip(tag));
      }
      var merged := Merge(fragment, changelog);
      var message := CommitMessage(tag);
      WriteAndCommit(opts.outputChangelog, merged, message);
      r := Decided(Write(tag, merged, message));
    }
  }

  /**
   * Running the update twice in a row leaves the workspace as one run
   * does: after a Write the second run skips, and after any other outcome
   * it reports the same outcome again. The changelog must not be the tag
   * file.
   */
  method RerunIsNoOp(w: Workspace, opts: Options) returns (first: RunResult, second: RunResult)
    requires opts.outputChangelog != opts.releaseTagFile
    modifies w
    ensures second == if first.Decided? && first.outcome.Write? then Decided(Skip(first.outcome.tag)) else first
    ensures first.Decided? && first.outcome.Write? ==>
      w.files == old(w.files)[opts.outputChangelog := first.outcome.content]
      && w.commits == old(w.commits) + [Commit(opts.outputChangelog, first.outcome.message)]
    ensures !(first.Decided? && first.outcome.Write?) ==> w.files == old(w.files) && w.commits == old(w.commits)
  {
    ghost var before := w.files;
    first := w.Update(opts);
    if first.Decided? && first.outcome.Write? {
      RerunSkipsInStore(before, opts);
    }
    second := w.Update(opts);
  }
}
