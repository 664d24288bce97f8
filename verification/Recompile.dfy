/**
  `Compiler.recompile` of lib/Compiler.js, lines 13-95, as a pure function
  of what the outside world does.  Every external call (the git clone, the
  Sass compiler, Reddit's `updateStylesheet`, `uploadStylesheetImage` and
  `composeMessage`, and `fs.readdirSync`) is replaced by the result it
  produced; the run yields how the returned promise settles together with
  the Reddit calls it issued, in order.
*/
module Recompile {
  import opened Wrappers
  import opened NodePath
  import opened Assets
  import Finisher

  /** A rejection or exception value; `text` is what `${error}` prints. */
  datatype Error = Error(text: string)

  datatype CloneResult = Cloned | CloneFailed(error: Error)
  datatype CompileResult = Compiled(css: string) | CompileFailed(error: Error)
  datatype RemoteResult = Accepted | Refused(error: Error)
  /** `fs.readdirSync` either lists the directory or throws. */
  datatype Listing = Listed(files: seq<EntryName>) | ListingThrew(error: Error)

  /** What the outside world does during one run.  Uploads run concurrently;
      only their results matter, so each descriptor is mapped to its result. */
  datatype World = World(
    clone: CloneResult,
    compile: CompileResult,
    updateStylesheet: RemoteResult,
    assetListing: Listing,
    upload: AssetUpload -> RemoteResult,
    composeMessage: RemoteResult)

  /** The run's configuration: the subreddit, the clock reading, the asset
      directory, the `message` argument used as the stylesheet's reason, and
      the minifier. */
  datatype Settings = Settings(
    subredditName: string,
    generatedAt: string,
    assetDirectory: string,
    reason: string,
    minify: string -> string)

  /** A call made to Reddit. */
  datatype Call =
    | UpdateStylesheet(css: string, reason: string)
    | UploadStylesheetImage(asset: AssetUpload)
    | ComposeMessage(to: string, subject: string, text: string)

  /** How the promise returned by `recompile` ends up: never settled,
      resolved, or rejected with or without a value. */
  datatype Settlement = Pending | Resolved | Rejected(reason: Option<Error>)

  datatype Run = Run(settlement: Settlement, calls: seq<Call>)

  const FailureSubject: string := "Failed to upload new stylesheet."

  const FailureIntro: string := "An error occured uploading the stylesheet for /r/"

  /** The message body: which subreddit, a blank line, then the error. */
  function FailureText(subredditName: string, error: Error): string
  {
    FailureIntro + subredditName + ":\n\n" + error.text
  }

  /** The uploads `Promise.all` waits for, issued in listing order. */
  function UploadCalls(us: seq<AssetUpload>): seq<Call>
  {
    seq(|us|, i requires 0 <= i < |us| => UploadStylesheetImage(us[i]))
  }

  predicate AllAccepted(us: seq<AssetUpload>, upload: AssetUpload -> RemoteResult)
  {
    forall i :: 0 <= i < |us| ==> upload(us[i]).Accepted?
  }

  /** The `.catch(error => ...)` handler: one message to the subreddit's
      moderators, then a rejection without a value, or with the message's own
      error if the message fails. */
  function NotifyModerators(s: Settings, w: World, error: Error, calls: seq<Call>): (r: Run)
    ensures |r.calls| == |calls| + 1 && r.calls[..|calls|] == calls
    ensures r.calls[|calls|] == ComposeMessage(s.subredditName, FailureSubject, FailureText(s.subredditName, error))
    ensures r.settlement.Rejected?
    ensures r.settlement.reason.Some? <==> w.composeMessage.Refused?
    ensures w.composeMessage.Refused? ==> r.settlement.reason.value == w.composeMessage.error
  {
    var message := ComposeMessage(s.subredditName, FailureSubject, FailureText(s.subredditName, error));
    match w.composeMessage
    case Accepted => Run(Rejected(None), calls + [message])
    case Refused(e) => Run(Rejected(Some(e)), calls + [message])
  }

  /** Pushing the finished document.  The success handler lists the asset
      directory and starts every upload; an exception thrown by the listing
      ends up in the same `.catch` as a refused stylesheet.  A failed upload
      is only logged, so the run then never settles. */
  function Publish(s: Settings, w: World, cssBody: string): (r: Run)
    ensures |r.calls| >= 1 && r.calls[0] == UpdateStylesheet(cssBody, s.reason)
    ensures forall i :: 0 < i < |r.calls| ==> !r.calls[i].UpdateStylesheet?
    ensures r.settlement.Rejected? <==> PublishFailure(w).Some?
  {
    var update := UpdateStylesheet(cssBody, s.reason);
    match w.updateStylesheet
    case Refused(e) => NotifyModerators(s, w, e, [update])
    case Accepted =>
      match w.assetListing
      case ListingThrew(e) => NotifyModerators(s, w, e, [update])
      case Listed(files) =>
        var uploads := Descriptors(s.assetDirectory, files);
        Run(if AllAccepted(uploads, w.upload) then Resolved else Pending,
            [update] + UploadCalls(uploads))
  }

  /** `Compiler.recompile`.  A failed clone is only logged, so the run never
      settles; a Sass error rejects with that error. */
  function Recompile(s: Settings, w: World): (r: Run)
    ensures r.calls != [] <==> w.clone == Cloned && w.compile.Compiled?
    ensures r.settlement == Resolved ==> w.clone == Cloned && w.compile.Compiled? && PublishFailure(w).None?
  {
    match w.clone
    case CloneFailed(_) => Run(Pending, [])
    case Cloned =>
      match w.compile
      case CompileFailed(e) => Run(Rejected(Some(e)), [])
      case Compiled(css) =>
        Publish(s, w, Finisher.Finish(s.subredditName, s.generatedAt, css, s.minify))
  }

  /** The document a successful compile publishes. */
  function Document(s: Settings, css: string): string
  {
    Finisher.Finish(s.subredditName, s.generatedAt, css, s.minify)
  }

  /** The error that sends the run into the moderator notification, if any. */
  function PublishFailure(w: World): Option<Error>
  {
    match w.updateStylesheet
    case Refused(e) => Some(e)
    case Accepted =>
      match w.assetListing
      case ListingThrew(e) => Some(e)
      case Listed(_) => None
  }

  /** The run once the stylesheet is accepted and the directory listed. */
  lemma ListedRun(s: Settings, w: World) returns (us: seq<AssetUpload>)
    requires w.clone == Cloned && w.compile.Compiled?
    requires w.updateStylesheet == Accepted && w.assetListing.Listed?
    ensures us == Descriptors(s.assetDirectory, w.assetListing.files)
    ensures Recompile(s, w).calls == [UpdateStylesheet(Document(s, w.compile.css), s.reason)] + UploadCalls(us)
    ensures Recompile(s, w).settlement == if AllAccepted(us, w.upload) then Resolved else Pending
  {
    us := Descriptors(s.assetDirectory, w.assetListing.files);
  }

  /** Nothing reaches Reddit unless both the clone and the compile succeed;
      when they do, the first call pushes the finished document, and it is
      the only stylesheet update of the run. */
  lemma RemoteCallsNeedBuild(s: Settings, w: World)
    ensures Recompile(s, w).calls != [] <==> w.clone == Cloned && w.compile.Compiled?
    ensures Recompile(s, w).calls != [] ==>
      Recompile(s, w).calls[0] == UpdateStylesheet(Document(s, w.compile.css), s.reason)
    ensures forall i :: 0 < i < |Recompile(s, w).calls| ==> !Recompile(s, w).calls[i].UpdateStylesheet?
  {
  }

  /** A failed clone is swallowed by the final `.catch`: no call, no settlement. */
  lemma CloneFailureNeverSettles(s: Settings, w: World)
    requires w.clone.CloneFailed?
    ensures Recompile(s, w) == Run(Pending, [])
  {
  }

  /** A Sass error rejects with the compiler's own error, before any call. */
  lemma CompileErrorRejects(s: Settings, w: World)
    requires w.clone == Cloned && w.compile.CompileFailed?
    ensures Recompile(s, w) == Run(Rejected(Some(w.compile.error)), [])
  {
  }

  /** A refused stylesheet, or an asset listing that throws after the
      stylesheet was accepted, leads to exactly one message to the
      moderators describing that error and to no upload; the run rejects
      without a value if the message goes through, with the message's error
      otherwise. */
  lemma PublishFailureNotifiesOnce(s: Settings, w: World)
    requires w.clone == Cloned && w.compile.Compiled?
    requires PublishFailure(w).Some?
    ensures Recompile(s, w).calls == [
      UpdateStylesheet(Document(s, w.compile.css), s.reason),
      ComposeMessage(s.subredditName, FailureSubject, FailureText(s.subredditName, PublishFailure(w).value))]
    ensures w.composeMessage == Accepted ==> Recompile(s, w).settlement == Rejected(None)
    ensures w.composeMessage.Refused? ==> Recompile(s, w).settlement == Rejected(Some(w.composeMessage.error))
  {
  }

  /** Once the stylesheet is accepted and the directory listed, every entry
      is uploaded exactly once, in listing order, under its name without
      extension, from its path in the asset directory, as a jpg. */
  lemma AcceptedStylesheetUploadsEveryAsset(s: Settings, w: World)
    requires w.clone == Cloned && w.compile.Compiled?
    requires w.updateStylesheet == Accepted && w.assetListing.Listed?
    ensures Recompile(s, w).calls
         == [UpdateStylesheet(Document(s, w.compile.css), s.reason)]
          + UploadCalls(Descriptors(s.assetDirectory, w.assetListing.files))
  {
    var us := ListedRun(s, w);
  }

  /** When the stylesheet is accepted no message goes to the moderators,
      whatever happens to the uploads. */
  lemma AcceptedStylesheetSendsNoMessage(s: Settings, w: World)
    requires w.clone == Cloned && w.compile.Compiled?
    requires w.updateStylesheet == Accepted && w.assetListing.Listed?
    ensures forall k :: 0 <= k < |Recompile(s, w).calls| ==> !Recompile(s, w).calls[k].ComposeMessage?
  {
    var us := ListedRun(s, w);
  }

  /** With the stylesheet accepted, the run resolves exactly when every
      upload succeeds; a single failed upload leaves it pending forever. */
  lemma AcceptedStylesheetResolvesIffUploadsSucceed(s: Settings, w: World)
    requires w.clone == Cloned && w.compile.Compiled?
    requires w.updateStylesheet == Accepted && w.assetListing.Listed?
    ensures var run, us := Recompile(s, w), Descriptors(s.assetDirectory, w.assetListing.files);
      && (run.settlement == Resolved <==> forall i :: 0 <= i < |us| ==> w.upload(us[i]) == Accepted)
      && (run.settlement != Resolved ==> run.settlement == Pending)
  {
    var us := ListedRun(s, w);
  }

  /** A resolved run had every stage succeed, every upload included. */
  lemma ResolvedMeansAllSucceeded(s: Settings, w: World)
    requires Recompile(s, w).settlement == Resolved
    ensures w.clone == Cloned && w.compile.Compiled?
    ensures w.updateStylesheet == Accepted && w.assetListing.Listed?
    ensures forall k :: 0 <= k < |Recompile(s, w).calls| && Recompile(s, w).calls[k].UploadStylesheetImage? ==>
      w.upload(Recompile(s, w).calls[k].asset) == Accepted
  {
  }

  /** A run that never settles lost its clone or had an upload refused
      after the stylesheet was accepted; in the second case `k` is the
      position of such an upload in listing order. */
  lemma PendingMeansCloneOrUploadFailed(s: Settings, w: World) returns (k: nat)
    requires Recompile(s, w).settlement == Pending
    ensures w.clone.CloneFailed? || (
      && w.compile.Compiled? && w.updateStylesheet == Accepted && w.assetListing.Listed?
      && k < |Descriptors(s.assetDirectory, w.assetListing.files)|
      && w.upload(Descriptors(s.assetDirectory, w.assetListing.files)[k]).Refused?)
  {
    k := 0;
    if w.clone == Cloned {
      var us := ListedRun(s, w);
      k :| k < |us| && w.upload(us[k]).Refused?;
    }
  }

  /** A rejection without a value means the moderators were told. */
  lemma RejectionWithoutValueMeansNotified(s: Settings, w: World)
    requires Recompile(s, w).settlement == Rejected(None)
    ensures w.composeMessage == Accepted
    ensures |Recompile(s, w).calls| == 2 && Recompile(s, w).calls[1].ComposeMessage?
  {
  }

  /** A rejection value is the compiler's error or the failed message's
      error, never the stylesheet's or the listing's. */
  lemma RejectionValueOrigin(s: Settings, w: World)
    requires Recompile(s, w).settlement.Rejected? && Recompile(s, w).settlement.reason.Some?
    ensures var e := Recompile(s, w).settlement.reason.value;
      || (w.compile.CompileFailed? && e == w.compile.error && Recompile(s, w).calls == [])
      || (w.composeMessage.Refused? && e == w.composeMessage.error && |Recompile(s, w).calls| == 2)
  {
  }
}
