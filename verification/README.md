# subreddit-css-listener: `Compiler.recompile` in Dafny

`Compiler.recompile(https_url, message)` in lib/Compiler.js does one full
rebuild of a subreddit stylesheet. It clones the stylesheet repository and
compiles its Sass entry point. It then builds the published document: a fixed
comment banner, followed by the minified CSS after a regular expression's
`@charset "…";` matches are removed in a single pass. It pushes that
document to Reddit as the subreddit's stylesheet and uploads every file of
the asset directory as a stylesheet image. If the stylesheet is refused, it
sends the subreddit's moderators one message instead. The result is a promise that
resolves, rejects or never settles, depending on what the outside world did.

The model has six modules:

- `CharsetStrip` holds `replace(/@charset "[\S]+";/gi, "")`. It is written
  as an explicit left-to-right scanner with the ECMAScript semantics spelled
  out:
  - only ASCII letters fold case, because the expression has no `u` flag;
  - `\S` is the complement of ECMAScript's WhiteSpace and LineTerminator sets;
  - `[\S]+` is greedy and backs off to the last `";` inside the non-space run;
  - after a match the search resumes at the match's end.

  It also has loop implementations (`FindMatch`, `StripScan`), each proved
  equal to the functional definition.
- `Finisher` builds the banner and the published document. It also has a
  line splitter, used to show that the banner is a fixed block of six lines
  that the minifier cannot reach.
- `NodePath` has POSIX `path.extname`, `path.basename(f, ext)` and
  `path.join`, restricted to single directory entries.
- `Assets` has the `{name, file, imageType}` descriptors passed to
  `uploadStylesheetImage`.
- `Recompile` has the whole promise chain, as a pure function of what each
  external call did. Each of these calls enters as a result value:
  - the git clone;
  - the Sass compile;
  - `updateStylesheet`;
  - `fs.readdirSync`, which either lists entries or throws;
  - each upload;
  - `composeMessage`.

  The run yields how the promise settles (`Pending`, `Resolved`,
  `Rejected(None)` or `Rejected(Some(e))`) and the ordered list of calls made
  to Reddit.
- `Wrappers` and `SeqFacts` are small helpers.

The clock reading (`new Date().toLocaleString()`), the subreddit name, the
`message` argument and the minifier (`uglifyCSS.processString`) are
parameters. The minifier is an arbitrary total function on strings.

## Model

| member | source | states |
|---|---|---|
| CharsetStrip.MatchEnd | lib/Compiler.js:48 | The match the expression finds at an index is a real match: a case-insensitive `@charset "`, at least one non-space character, then `";`. It is the longest match starting at that index. No match is reported exactly when none exists there. |
| CharsetStrip.FindMatch | lib/Compiler.js:48 | The engine's greedy-then-backtrack search, written as two loops, finds exactly the match `MatchEnd` describes. |
| CharsetStrip.StripAtLeftmostMatch | lib/Compiler.js:48 | From any point, the global replace copies everything before the leftmost match start, deletes the longest match there, and continues right after it. |
| CharsetStrip.StripKeepsUnmatched | lib/Compiler.js:48 | Text in which no match starts is copied verbatim. |
| CharsetStrip.StripWithoutOpeningIsIdentity | lib/Compiler.js:48 | CSS with no case-insensitive `@charset "` anywhere comes back unchanged. |
| CharsetStrip.StripIsSubsequence | lib/Compiler.js:48 | Stripping only deletes characters: the result is a subsequence of the input, in the same order. |
| CharsetStrip.Strip | lib/Compiler.js:48 | Stripping never makes the CSS longer. |
| CharsetStrip.StripRemovesSomeMatch | lib/Compiler.js:48 | If the CSS holds any match, the output is at least 13 characters shorter, the size of the smallest directive. |
| CharsetStrip.StripCanLeaveDirective | lib/Compiler.js:47-48 | A single pass does not always remove every directive. Removing the inner match of `@cha@charset "x";rset "y";` joins its neighbours into `@charset "y";`, which is itself a match. |
| CharsetStrip.StripScan | lib/Compiler.js:48 | The global replace, written as a loop over the text, equals the scanner's definition. |
| Finisher.Banner | lib/Compiler.js:41-45 | The banner the code concatenates is exactly six lines, each ended by a line feed: `/**`, the stamp line with subreddit and time, the warning, the line naming the repository, `*/`, and an empty line. |
| Finisher.Finish | lib/Compiler.js:41-48 | Whatever the minifier returns, the document starts with the banner, and the rest is the minifier's output on the CSS after one pass of the charset replace, which can still hold a directive (`CharsetStrip.StripCanLeaveDirective`). `Finisher.FinishedLines` gives the same document line by line. |
| Finisher.FinishedLines | lib/Compiler.js:41-48 | Suppose the subreddit name and the time string have no line feed. Then the document, read line by line, is the six banner lines followed by the lines of the minifier's output, so the minifier cannot alter the banner. |
| NodePath.Extname | lib/Compiler.js:70-72 | `path.extname` of an entry is empty or starts with a dot. It is a proper suffix of the entry with no further dot. It is empty exactly when the entry is `..` or has no dot after its first character. |
| NodePath.Basename | lib/Compiler.js:70 | `path.basename(f, ext)` removes `ext` when `f` ends with it, so the base followed by `ext` is `f`; otherwise it returns `f` unchanged. |
| NodePath.JoinLastComponent | lib/Compiler.js:71 | `path.join(dir, f)` of a normalised directory (non-empty, with no trailing `/`) and a single entry is undone by cutting at the last separator: the directory is everything before it and the entry is the last component. The added `/` is the last one, found by a search from the end. |
| Assets.ImageTypeOf | lib/Compiler.js:72 | The image type is always `jpg`, because `extname` includes the dot and never equals `"png"`. |
| Assets.Describe | lib/Compiler.js:69-72 | An entry's descriptor has the entry's name without its extension (name + extension = entry) and the entry's path inside the asset directory, with type `jpg`. |
| Assets.Descriptors | lib/Compiler.js:69-73 | The mapped listing has one descriptor per entry, in listing order, with each entry's name, path and type as above. |
| Assets.ClassifiesPngAsJpg | lib/Compiler.js:72 | `icon.png` has extension `.png` and is still uploaded as `{name: "icon", file: "assets/icon.png", imageType: jpg}`. An extensionless `icon` keeps its whole name. |
| Recompile.Recompile | lib/Compiler.js:13-95 | Reddit is called exactly when both the clone and the compile succeed, and a resolved run had both, with a stylesheet update that was accepted and a listing that did not throw. The lemmas below (`RemoteCallsNeedBuild`, `CloneFailureNeverSettles`, `CompileErrorRejects`, `ResolvedMeansAllSucceeded`, `PendingMeansCloneOrUploadFailed`, `RejectionValueOrigin`) state the rest of its behaviour. |
| Recompile.Publish | lib/Compiler.js:64-90 | The first call pushes the document with the `message` reason, and no later call updates the stylesheet. The publication rejects exactly when the stylesheet is refused or the listing throws. `PublishFailureNotifiesOnce` and `AcceptedStylesheetUploadsEveryAsset` give the calls in each case. |
| Recompile.NotifyModerators | lib/Compiler.js:76-89 | The calls made so far are kept, and exactly one message is appended, to the subreddit, with the fixed subject and a text naming the subreddit and the error. The run always rejects: without a value when the message goes through, and with the message's own error when it is refused. |
| Recompile.RemoteCallsNeedBuild | lib/Compiler.js:32-67 | Reddit is called exactly when both the clone and the compile succeed. The first call then pushes the finished document with the `message` reason, and it is the run's only stylesheet update. |
| Recompile.CloneFailureNeverSettles | lib/Compiler.js:93 | A failed clone is only logged: no call is made, and the promise never settles. |
| Recompile.CompileErrorRejects | lib/Compiler.js:36-39 | A Sass error rejects with that error, before any call to Reddit. |
| Recompile.PublishFailureNotifiesOnce | lib/Compiler.js:64-89 | This covers a refused stylesheet, and an asset listing that throws after the stylesheet was accepted. Exactly one message goes to the moderators, with the fixed subject and a text naming the subreddit and the error, and nothing is uploaded. The run rejects without a value if the message goes through, and with the message's own error if it fails. |
| Recompile.AcceptedStylesheetUploadsEveryAsset | lib/Compiler.js:64-73 | With the stylesheet accepted and the directory listed, the calls are the stylesheet update followed by one upload per entry, in listing order. |
| Recompile.AcceptedStylesheetSendsNoMessage | lib/Compiler.js:67-76 | With the stylesheet accepted and the directory listed, no message is sent, whatever happens to the uploads. |
| Recompile.AcceptedStylesheetResolvesIffUploadsSucceed | lib/Compiler.js:75 | With the stylesheet accepted and the directory listed, the run resolves exactly when every upload succeeds; otherwise it stays pending. |
| Recompile.ResolvedMeansAllSucceeded | lib/Compiler.js:32-75 | A resolved run had a successful clone, compile, stylesheet update and listing, and every upload it issued was accepted. |
| Recompile.PendingMeansCloneOrUploadFailed | lib/Compiler.js:75-93 | A run that never settles either lost its clone, or had the stylesheet accepted and some listed asset's upload refused. |
| Recompile.RejectionWithoutValueMeansNotified | lib/Compiler.js:81-83 | A rejection without a value happens only after a moderator message went through, as the second and last call. |
| Recompile.RejectionValueOrigin | lib/Compiler.js:36-89 | A rejection value is either the compiler's error, with no call made, or the failed message's error, after two calls. It is never the stylesheet's or the listing's own error. |

## Behaviour of the code as written

The model follows lib/Compiler.js. In four places it does less than the
surrounding comments and names suggest:

- The charset removal is a single pass. A directive split around another
  directive survives it (`CharsetStrip.StripCanLeaveDirective`). So the
  published CSS can still contain a charset directive, despite the comment on
  line 47.
- `path.extname(file) === "png"` compares a dotted extension with an
  undotted one. Every asset, png included, is uploaded as `jpg`
  (`Assets.ImageTypeOf`, `Assets.ClassifiesPngAsJpg`).
- A refused asset upload is only logged by `.catch(console.error)`. The
  promise then never settles, and no moderator message is sent.
- An exception from `fs.readdirSync` is raised inside the success handler of
  `updateStylesheet`. It therefore reaches the same `.catch` as a refused
  stylesheet, and produces the moderator message and a rejection.

## Left out

- Cloning (nodegit, its credential and certificate callbacks) and the removal of the old checkout: only the clone's success or failure enters, as `CloneResult`. A throw from `remove.removeSync` (lines 17-18) would reject the promise with that error before any clone; this third origin of a rejection value is not modelled.
- The Sass compiler and the file name it is given: only its CSS or its error enters, as `CompileResult`.
- The minifier's behaviour: `uglifyCSS.processString` is an arbitrary function parameter, so nothing is assumed about what it does.
- `fs.writeFileSync` of `subreddit.css`: a local side effect that does not change the run's outcome or its calls.
- External calls that never answer: every call (clone, `sass.render`, `updateStylesheet`, each upload, `composeMessage`) is assumed to complete. A call that hangs also leaves the run pending, so `PendingMeansCloneOrUploadFailed` holds only among runs whose calls all answer.
- Snoowrap's HTTP traffic, authentication and `secrets.json`: each Reddit call is reduced to its arguments and an accepted/refused result.
- The message recipient is modelled as the subreddit name, where the code passes the `Subreddit` object for that name.
- The error text of the message is `${error}`; the model keeps each error's string form as given and does not model JavaScript's string conversion.
- The date formatting of `new Date().toLocaleString()`: the time enters as a string parameter.
- `Promise.all`'s concurrency: only each upload's outcome matters to the result, so uploads are modelled as results per descriptor and listed in issue order.
- Synchronous exceptions inside the Sass callback (from `writeFileSync`, the Snoowrap constructor) and a synchronous throw from `uploadStylesheetImage`: these are not part of this model.
- Console logging: it has no effect on the outcome.
- The value a run resolves with: line 75 resolves with the array of upload responses from `Promise.all`, but those responses come from Reddit and are not modelled, so `Resolved` carries no value.
- `path.join` normalisation of `..`, `.` and repeated slashes: the asset directory is taken as already normalised, non-empty and without a trailing `/`, and `Join` is plain concatenation with `/`. For a directory with a trailing `/`, Node does not double the separator, and the model does not cover that case.
- Entry names containing `/`: `fs.readdirSync` lists single path components, so `EntryName` excludes them.
