/** The folio capture screen: a list of captured photos, a mode flag that
    decides where the next camera picture goes (the list, or text
    recognition), the folio text field, and the "photos captured" counter.
    Camera, text recognition and storage are outside the model; only their
    results come in, as events and parameters. */
module Folio {
  import opened JavaText

  /** A captured bitmap; the model never looks inside one. */
  type Photo(==)

  datatype Option<T> = None | Some(value: T)

  /** `Activity.RESULT_OK`. */
  const ResultOk: int := -1

  /** `Environment.DIRECTORY_DOWNLOADS`. */
  const DownloadsDir: string := "Download"

  const JpegMime: string := "image/jpeg"
  const JpegQuality: nat := 90

  /** The screen's state. `shownCount` is the number the counter label shows. */
  datatype Session = Session(photos: seq<Photo>, multiCapture: bool, folioText: string, shownCount: nat)

  /** The counter label agrees with the list. */
  predicate CountShown(s: Session) {
    s.shownCount == |s.photos|
  }

  /** Refreshes the counter label from the list. */
  function UpdatePhotosCount(s: Session): (r: Session)
    ensures CountShown(r)
    ensures r.photos == s.photos && r.folioText == s.folioText && r.multiCapture == s.multiCapture
  {
    s.(shownCount := |s.photos|)
  }

  /** The screen as its view is first built: empty list, scan mode, the
      counter refreshed once. */
  function Initial(): (s: Session)
    ensures CountShown(s) && s.photos == []
  {
    UpdatePhotosCount(Session([], false, "", 0))
  }

  /** The scan button (false) and the multi-capture button (true) set the
      mode before asking for the camera; nothing else changes. */
  function SetMode(s: Session, multi: bool): (r: Session)
    ensures r.multiCapture == multi
    ensures r.photos == s.photos && r.folioText == s.folioText && r.shownCount == s.shownCount
  {
    s.(multiCapture := multi)
  }

  /** What the camera activity hands back: its result code and, unless the
      intent data is null, the thumbnail picture. */
  datatype CameraResult = CameraResult(code: int, data: Option<Photo>)

  /** The screen after a camera result, and the picture sent to text
      recognition, if any. */
  datatype CaptureStep = CaptureStep(session: Session, ocrRequest: Option<Photo>)

  function OnCameraResult(s: Session, res: CameraResult): (r: CaptureStep)
    // A cancelled capture or one without data changes nothing.
    ensures res.code != ResultOk || res.data.None? ==> r == CaptureStep(s, None)
    // Multi-capture: the picture goes at the end, everything before it stays.
    ensures res.code == ResultOk && res.data.Some? && s.multiCapture ==>
              && |r.session.photos| == |s.photos| + 1
              && r.session.photos[..|s.photos|] == s.photos
              && r.session.photos[|s.photos|] == res.data.value
              && CountShown(r.session)
              && r.session.folioText == s.folioText
              && r.session.multiCapture
              && r.ocrRequest == None
    // Scan mode: the list is untouched and the picture goes to recognition.
    ensures res.code == ResultOk && res.data.Some? && !s.multiCapture ==>
              r.session == s && r.ocrRequest == Some(res.data.value)
  {
    if res.code == ResultOk && res.data.Some? then
      if s.multiCapture then
        CaptureStep(UpdatePhotosCount(s.(photos := s.photos + [res.data.value])), None)
      else
        CaptureStep(s, Some(res.data.value))
    else
      CaptureStep(s, None)
  }

  /** What text recognition reports back, asynchronously. */
  datatype OcrOutcome = Recognized(text: string) | OcrFailed

  function OnOcrResult(s: Session, o: OcrOutcome): (r: Session)
    ensures r.photos == s.photos && r.multiCapture == s.multiCapture && r.shownCount == s.shownCount
    ensures o.Recognized? ==> r.folioText == o.text
    ensures o.OcrFailed? ==> r.folioText == s.folioText
  {
    match o
    case Recognized(text) => s.(folioText := text)
    case OcrFailed => s
  }

  /** The thumbnail delete button. The list's `remove(int)` throws on an
      index outside the list, so the caller must pass a valid one. */
  function DeletePhoto(s: Session, k: nat): (r: Session)
    requires k < |s.photos|
    ensures |r.photos| == |s.photos| - 1
    ensures forall i :: 0 <= i < k ==> r.photos[i] == s.photos[i]
    ensures forall i :: k <= i < |r.photos| ==> r.photos[i] == s.photos[i + 1]
    ensures multiset(r.photos) + multiset{s.photos[k]} == multiset(s.photos)
    ensures CountShown(r)
    ensures r.folioText == s.folioText && r.multiCapture == s.multiCapture
  {
    assert s.photos == s.photos[..k] + [s.photos[k]] + s.photos[k + 1..];
    UpdatePhotosCount(s.(photos := s.photos[..k] + s.photos[k + 1..]))
  }

  /** One storage insertion: display name, mime type, folder relative to
      the shared storage root, the picture, and the JPEG quality. */
  datatype WriteRequest = WriteRequest(displayName: string, mimeType: string, relativePath: string, photo: Photo, quality: nat)

  /** How one insertion went: stored, refused (no entry created), or failed
      while writing. None of them stops the batch. */
  datatype WriteOutcome = Written | NoEntry | WriteFailed

  datatype SaveResult =
    | NoPhotos
    | NoFolio
    | Saved(writes: seq<WriteRequest>, outcomes: seq<WriteOutcome>, folder: string)

  datatype SaveStep = SaveStep(result: SaveResult, session: Session)

  /** The name of the photo at 1-based position `n` of folio `folio`. */
  function FileName(folio: string, n: nat): string {
    folio + "_foto_" + NatToString(n) + ".jpg"
  }

  function FolderFor(folio: string): string {
    DownloadsDir + "/" + folio
  }

  function WriteFor(folio: string, photos: seq<Photo>, i: nat): WriteRequest
    requires i < |photos|
  {
    WriteRequest(FileName(folio, i + 1), JpegMime, FolderFor(folio), photos[i], JpegQuality)
  }

  /** The save button. `device(i, w)` is how the i-th insertion turns out:
      any outcome, for any reason. */
  function SavePhotos(s: Session, device: (nat, WriteRequest) -> WriteOutcome): (r: SaveStep)
    // An empty list is reported first, and nothing changes.
    ensures s.photos == [] ==> r == SaveStep(NoPhotos, s)
    // Then a folio that is blank once trimmed, and nothing changes.
    ensures s.photos != [] && Trim(s.folioText) == [] ==> r == SaveStep(NoFolio, s)
    // Otherwise: one request per photo, in list order, all attempted,
    // then the list and the folio field are cleared whatever happened.
    ensures s.photos != [] && Trim(s.folioText) != [] ==>
              var folio := Trim(s.folioText);
              && r.result.Saved?
              && |r.result.writes| == |s.photos| == |r.result.outcomes|
              && (forall i :: 0 <= i < |s.photos| ==>
                    && r.result.writes[i].photo == s.photos[i]
                    && r.result.writes[i].displayName == FileName(folio, i + 1)
                    && r.result.writes[i].relativePath == r.result.folder
                    && r.result.writes[i].mimeType == JpegMime
                    && r.result.writes[i].quality == JpegQuality
                    && r.result.outcomes[i] == device(i, r.result.writes[i]))
              && r.result.folder == FolderFor(folio)
              && r.session.photos == [] && r.session.folioText == []
              && CountShown(r.session)
              && r.session.multiCapture == s.multiCapture
  {
    if s.photos == [] then
      SaveStep(NoPhotos, s)
    else
      var folio := Trim(s.folioText);
      if folio == [] then
        SaveStep(NoFolio, s)
      else
        var writes := seq(|s.photos|, i requires 0 <= i < |s.photos| => WriteFor(folio, s.photos, i));
        var outcomes := seq(|writes|, i requires 0 <= i < |writes| => device(i, writes[i]));
        var cleared := UpdatePhotosCount(s.(photos := []));
        SaveStep(Saved(writes, outcomes, FolderFor(folio)), cleared.(folioText := ""))
  }

  /** Different positions get different file names. */
  lemma FileNameInjective(folio: string, m: nat, n: nat)
    requires FileName(folio, m) == FileName(folio, n)
    ensures m == n
  {
    var dm, dn := NatToString(m), NatToString(n);
    var pre := folio + "_foto_";
    assert FileName(folio, m) == pre + dm + ".jpg";
    assert FileName(folio, n) == pre + dn + ".jpg";
    assert |dm| == |dn|;
    assert dm == FileName(folio, m)[|pre|..|pre| + |dm|];
    assert dn == FileName(folio, n)[|pre|..|pre| + |dn|];
    NatToStringInjective(m, n);
  }

  /** A successful save never asks for the same name twice. */
  lemma SavedNamesDistinct(s: Session, device: (nat, WriteRequest) -> WriteOutcome, i: nat, j: nat)
    requires SavePhotos(s, device).result.Saved?
    requires i < j < |SavePhotos(s, device).result.writes|
    ensures SavePhotos(s, device).result.writes[i].displayName != SavePhotos(s, device).result.writes[j].displayName
  {
    var folio := Trim(s.folioText);
    if FileName(folio, i + 1) == FileName(folio, j + 1) {
      FileNameInjective(folio, i + 1, j + 1);
    }
  }

  /** The state a save leaves behind does not depend on how the writes went. */
  lemma SaveOutcomesIrrelevant(s: Session, device1: (nat, WriteRequest) -> WriteOutcome, device2: (nat, WriteRequest) -> WriteOutcome)
    ensures SavePhotos(s, device1).session == SavePhotos(s, device2).session
  {
  }

  /** Saving again straight after a successful save finds no photos, asks
      for no write, and changes nothing. */
  lemma SaveTwice(s: Session, device1: (nat, WriteRequest) -> WriteOutcome, device2: (nat, WriteRequest) -> WriteOutcome)
    requires SavePhotos(s, device1).result.Saved?
    ensures SavePhotos(SavePhotos(s, device1).session, device2) == SaveStep(NoPhotos, SavePhotos(s, device1).session)
  {
  }

  /** The button presses and the platform's callbacks, in the order the main
      thread sees them. Typing into the folio field has no event of its own:
      an Ocr event is accepted at any point, even without a scan before it,
      and Recognized(t) sets the field to any text t, so it stands for typing
      too. */
  datatype Event =
    | PressScan
    | PressMultiCapture
    | Camera(res: CameraResult)
    | Ocr(outcome: OcrOutcome)
    | Delete(index: nat)
    | Save(device: (nat, WriteRequest) -> WriteOutcome)

  /** One event; None when it would throw (a delete outside the list). A
      picture sent to recognition comes back later as its own Ocr event. */
  function Step(s: Session, e: Event): (r: Option<Session>)
    // Only a delete outside the list throws.
    ensures r.None? <==> e.Delete? && e.index >= |s.photos|
    // Only the two buttons change the mode.
    ensures r.Some? ==> r.value.multiCapture == (if e.PressScan? then false else if e.PressMultiCapture? then true else s.multiCapture)
    // The buttons and recognition results never touch the list.
    ensures r.Some? && (e.PressScan? || e.PressMultiCapture? || e.Ocr?) ==> r.value.photos == s.photos
    // Whatever the event, the counter keeps agreeing with the list.
    ensures r.Some? && CountShown(s) ==> CountShown(r.value)
  {
    match e
    case PressScan => Some(SetMode(s, false))
    case PressMultiCapture => Some(SetMode(s, true))
    case Camera(res) => Some(OnCameraResult(s, res).session)
    case Ocr(o) => Some(OnOcrResult(s, o))
    case Delete(k) => if k < |s.photos| then Some(DeletePhoto(s, k)) else None
    case Save(device) => Some(SavePhotos(s, device).session)
  }

  /** The events one after another, stopping at the first that throws. */
  function Run(s: Session, events: seq<Event>): (r: Option<Session>)
    ensures events == [] ==> r == Some(s)
    // A run can only crash on a delete.
    ensures r.None? ==> exists i :: 0 <= i < |events| && events[i].Delete?
    decreases |events|
  {
    if events == [] then Some(s)
    else
      match Step(s, events[0])
      case None => None
      case Some(t) =>
        var r := Run(t, events[1..]);
        assert r.None? ==> exists i :: 1 <= i < |events| && events[i].Delete? by {
          if r.None? {
            var j :| 0 <= j < |events[1..]| && events[1..][j].Delete?;
            assert events[j + 1] == events[1..][j];
          }
        }
        r
  }

  /** The counter label always shows the list's length, after every event of
      every run that does not throw. */
  lemma {:induction false} RunKeepsCountShown(s: Session, events: seq<Event>)
    requires CountShown(s)
    ensures Run(s, events).Some? ==> CountShown(Run(s, events).value)
    decreases |events|
  {
    if events != [] {
      match Step(s, events[0])
      case None =>
      case Some(t) => RunKeepsCountShown(t, events[1..]);
    }
  }

  /** Successful camera results carrying the given pictures. */
  function Captures(ps: seq<Photo>): (es: seq<Event>)
    ensures |es| == |ps|
  {
    seq(|ps|, i requires 0 <= i < |ps| => Camera(CameraResult(ResultOk, Some(ps[i]))))
  }

  /** In multi-capture mode, a run of captures appends the pictures in the
      order the camera returned them. */
  lemma {:induction false} CapturesAppend(s: Session, ps: seq<Photo>)
    requires s.multiCapture && CountShown(s)
    ensures Run(s, Captures(ps)) == Some(s.(photos := s.photos + ps, shownCount := |s.photos| + |ps|))
    decreases |ps|
  {
    if ps == [] {
      assert s.photos + ps == s.photos;
    } else {
      var t := OnCameraResult(s, CameraResult(ResultOk, Some(ps[0]))).session;
      assert t == s.(photos := s.photos + [ps[0]], shownCount := |s.photos| + 1);
      assert Captures(ps)[1..] == Captures(ps[1..]);
      CapturesAppend(t, ps[1..]);
      assert (s.photos + [ps[0]]) + ps[1..] == s.photos + ps;
    }
  }

  /** Entering the screen, switching to multi-capture, taking `ps` and then
      deleting the `k`-th thumbnail leaves exactly `ps` without its `k`-th
      picture, in order. */
  lemma CaptureThenDelete(ps: seq<Photo>, k: nat)
    requires k < |ps|
    ensures Run(Initial(), [PressMultiCapture] + Captures(ps) + [Delete(k)]).Some?
    ensures Run(Initial(), [PressMultiCapture] + Captures(ps) + [Delete(k)]).value.photos == ps[..k] + ps[k + 1..]
  {
    var s := SetMode(Initial(), true);
    assert Run(Initial(), [PressMultiCapture] + Captures(ps) + [Delete(k)]) == Run(s, Captures(ps) + [Delete(k)]) by {
      assert ([PressMultiCapture] + Captures(ps) + [Delete(k)])[1..] == Captures(ps) + [Delete(k)];
    }
    CapturesAppend(s, ps);
    RunAppend(s, Captures(ps), [Delete(k)]);
    var t := s.(photos := ps, shownCount := |ps|);
    assert s.photos + ps == ps;
    var u := DeletePhoto(t, k);
    assert Run(t, [Delete(k)]) == Some(u);
    assert u.photos == ps[..k] + ps[k + 1..];
  }

  /** Running two event lists one after the other is running their
      concatenation. */
  lemma {:induction false} RunAppend(s: Session, xs: seq<Event>, ys: seq<Event>)
    ensures Run(s, xs + ys) == (match Run(s, xs) case None => None case Some(t) => Run(t, ys))
    decreases |xs|
  {
    if xs == [] {
      assert xs + ys == ys;
    } else {
      assert (xs + ys)[0] == xs[0];
      assert (xs + ys)[1..] == xs[1..] + ys;
      match Step(s, xs[0])
      case None =>
      case Some(t) => RunAppend(t, xs[1..], ys);
    }
  }

  /** The first two names of folio "F123". */
  lemma ExampleNames()
    ensures FileName("F123", 1) == "F123_foto_1.jpg"
    ensures FileName("F123", 2) == "F123_foto_2.jpg"
  {
    assert NatToString(1) == "1";
    assert NatToString(2) == "2";
  }

  /** Two photos saved under folio "F123": the names and folder the screen
      asks for. */
  lemma SaveExample(p1: Photo, p2: Photo, device: (nat, WriteRequest) -> WriteOutcome)
    ensures var r := SavePhotos(Session([p1, p2], true, "F123", 2), device).result;
            && r.Saved?
            && |r.writes| == 2
            && r.writes[0].displayName == "F123_foto_1.jpg"
            && r.writes[1].displayName == "F123_foto_2.jpg"
            && r.folder == "Download/F123"
  {
    var s := Session([p1, p2], true, "F123", 2);
    assert Trim(s.folioText) == "F123" by {
      TrimUnique([], "F123", []);
      assert [] + "F123" + [] == "F123";
    }
    ExampleNames();
  }
}
