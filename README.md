# updateChangelog, modelled in Dafny

This project models projen's release step `updateChangelog`
(`src/release/update-changelog.ts`). The step prepends a per-release changelog
fragment onto the project's cumulative changelog, at most once per release tag,
and then commits the changelog with the message `chore(release): <tag>`.

It has two modules:

- `JsString` (`js_string.dfy`) models the JavaScript string built-ins the step
  uses: `trim`, `trimStart`, `trimEnd`, `includes` and `indexOf`. Whitespace is
  the ECMAScript WhiteSpace and LineTerminator set, written out character by
  character in `WhiteSpace`. It includes the Unicode space separators, the
  no-break space and the byte order mark.
- `UpdateChangelog` (`update_changelog.dfy`) has three layers:
  - `Decide` is the pure decision over the tag-file text, the fragment text and
    the changelog text. It yields one of four outcomes: `MissingReleaseTag`,
    `FragmentVersionMismatch`, `Skip` or `Write(tag, content, message)`.
  - `Run` follows the source's reading order over a file store. It adds the
    failure of a `readFile` on a missing fragment or changelog.
  - `Workspace` is a class holding the file store (`files`, a map from path to
    text) and the commit log (`commits`). Its method `Update` runs the step in
    the source's order: read the tag, check it, read the fragment, check the
    marker, read the changelog, check for a duplicate, then write the file and
    commit. The workspace changes only on a `Write`, and then only the
    changelog file and the commit log change.

What is proved:
- The tag is the trimmed tag-file text. It is empty exactly when that text is
  all whitespace.
- The written changelog is the fragment without its trailing whitespace, one
  blank line, then the old changelog without its leading whitespace. The old content survives as a
  suffix.
- The written changelog contains the marker `[tag]`, because `trimEnd` never
  removes the closing `]`.
- A second run on what was written skips. This holds for the pure decision, for
  the file store and for two consecutive calls of `Workspace.Update`. The
  changelog file must not be the tag file.

## Model

| member | source | states |
|---|---|---|
| `JsString.TrimStart` | src/release/update-changelog.ts:79 | `trimStart` never lengthens the text, and its result does not begin with whitespace |
| `JsString.TrimStartSpec` | src/release/update-changelog.ts:79 | `trimStart` returns a suffix of its input, and everything it removes is whitespace |
| `JsString.TrimEnd` | src/release/update-changelog.ts:79 | `trimEnd` never lengthens the text, and its result does not end with whitespace |
| `JsString.TrimEndSpec` | src/release/update-changelog.ts:79 | `trimEnd` returns a prefix of its input, and everything it removes is whitespace |
| `JsString.Trim` | src/release/update-changelog.ts:53 | a non-empty result of `trim` has no whitespace at either end |
| `JsString.TrimEmpty` | src/release/update-changelog.ts:53-55 | the trimmed tag is empty (the `!releaseTag` test) exactly when the tag-file text is all whitespace, the empty text included |
| `JsString.TrimIsSlice` | src/release/update-changelog.ts:53 | `trim` returns a contiguous slice of its input, with only whitespace before and after it |
| `JsString.IndexOf` | src/release/update-changelog.ts:72 | `indexOf` returns -1 exactly when the text does not contain the pattern; otherwise it returns the position of the first occurrence |
| `JsString.TrimEndKeeps` | src/release/update-changelog.ts:79 | `trimEnd` keeps every occurrence of a pattern whose last character is not whitespace |
| `UpdateChangelog.Decide` | src/release/update-changelog.ts:53-79 | MissingReleaseTag exactly when the tag-file text is all whitespace; FragmentVersionMismatch exactly when the fragment lacks `[tag]`; otherwise Skip exactly when the changelog contains `[tag]`; otherwise Write with the merged text and `chore(release): tag`; the tag is always the trimmed tag-file text |
| `UpdateChangelog.TagIsTrimmed` | src/release/update-changelog.ts:53-62 | the tag used in the marker and the commit message is non-empty, has no whitespace at either end, and is a slice of the tag-file text with only whitespace around it; the message is `chore(release): ` followed by the tag |
| `UpdateChangelog.WriteLayout` | src/release/update-changelog.ts:79 | the new changelog is the fragment with only trailing whitespace cut, then exactly `\n\n`, then the old changelog with only leading whitespace cut; neither side of the separator has its own whitespace next to it, so there is exactly one blank line |
| `UpdateChangelog.MergeKeepsMarker` | src/release/update-changelog.ts:64-79 | if the fragment contains `[tag]`, so does the merged changelog |
| `UpdateChangelog.WriteHasMarker` | src/release/update-changelog.ts:62-79 | on the Write path the new changelog contains the release's marker |
| `UpdateChangelog.RerunSkips` | src/release/update-changelog.ts:72-79 | idempotence: with the same tag and fragment, a second decision on the written changelog is Skip |
| `UpdateChangelog.MergeExample` | src/release/update-changelog.ts:79 | a 1.2.0 fragment merged onto a 1.1.0 changelog gives the 1.2.0 entry, one blank line, then the 1.1.0 entry, committed as `chore(release): 1.2.0` |
| `UpdateChangelog.RunDecides` | src/release/update-changelog.ts:53-77 | a run fails on a read exactly when the tag is non-empty and the fragment is missing, or when the fragment has the marker and the changelog is missing; a whitespace tag always gives MissingReleaseTag; a fragment without `[tag]` gives FragmentVersionMismatch before the changelog is read, whether or not the changelog exists; with both files present the run takes the pure decision |
| `UpdateChangelog.RerunSkipsInStore` | src/release/update-changelog.ts:72-84 | after a Write to the file store, a rerun with the same options skips, provided the changelog is not the tag file |
| `UpdateChangelog.Workspace.WriteAndCommit` | src/release/update-changelog.ts:81-86 | writing the changelog replaces that one file and appends one commit of that path with the message; nothing else changes |
| `UpdateChangelog.Workspace.Update` | src/release/update-changelog.ts:44-87 | the result is `Run` on the files before the call; on a Write, only the changelog file changes and exactly one commit is appended; on every other outcome and on a read failure, neither files nor commits change |
| `UpdateChangelog.RerunIsNoOp` | src/release/update-changelog.ts:72-86 | two consecutive updates leave the workspace as one does; after a Write the second reports Skip, and otherwise it repeats the first outcome |

## Left out

- `path.join` (src/release/update-changelog.ts:48-50): its normalisation rules are library code. The option paths are keys of the file store, relative to the working directory, and the working directory itself is not modelled.
- `utils.tryReadFile` is in `src/util`, which is not part of this model. `TryRead` assumes it returns the empty text for a missing file. A missing tag file therefore ends in MissingReleaseTag. A tag file that exists but cannot be read is not representable in the file store.
- `readFile` failures other than a missing file (permissions, for example) are not modelled, and neither is the UTF-8 decoding of the file bytes (invalid sequences become U+FFFD); file contents are already text. A missing fragment or changelog gives `ReadFailed` with nothing written.
- A failing `writeFile` (src/release/update-changelog.ts:81-84) is not modelled: in the source its error propagates before the commit at line 86, while `Workspace.WriteAndCommit` always succeeds.
- The `git add && git commit` shell command (src/release/update-changelog.ts:86) is an external process. The model records one `Commit(path, message)` per Write. It leaves out commit failures and the shell quoting of the path and tag.
- The texts of the thrown errors and the `logging.info` message on the skip path are output only. The errors are the `MissingReleaseTag` and `FragmentVersionMismatch` outcomes.
- `async`/`await`: there is no concurrency, only the straight-line order `Update` follows.
- JavaScript strings are UTF-16 code units, while Dafny strings are sequences of Unicode scalar values. Every whitespace character is in the Basic Multilingual Plane, so trimming and substring search agree for well-formed text. Lone surrogates cannot be represented.
- `WhiteSpace` lists the Unicode Space_Separator characters as of Unicode 15; later Unicode versions may add to that category.
- UpdateChangelog.RerunSkipsInStore: assumes the changelog path differs from the tag-file path. If they were the same file, the second run would read the merged text as its tag.
- UpdateChangelog.RerunIsNoOp: makes the same assumption, for the same reason.
