/** The HTTP endpoints: the public submission page and download by request
    token, and the staff endpoints that start an indexing, report its
    progress, force a search and re-run the encoding of a demand. Each view
    is a pure function from the store to the store it leaves, the jobs it
    dispatches and the response it sends. */
module Views {
  import opened Settings
  import opened Text
  import Ordered
  import opened Models
  import opened Tasks
  import opened Forms

  datatype Request = Get | Post(sub: Submission)

  /** One member of a zip archive: the file it is read from and the name it
      gets inside the archive. */
  datatype ZipEntry = ZipEntry(source: string, name: string)

  datatype Response =
    | NotFound
    /** More than one row matched a lookup that expects one. */
    | MultipleFound
    /** The submission page: after a saved demand, or showing the form with
        the errors it reports. */
    | IndexPage(success: bool, errors: set<FormError>)
    | Text(body: string, code: int)
    | Attachment(filename: string, entries: seq<ZipEntry>)
    | Json(status: string, message: string)
    | Progress(status: string, totalPhotos: int, indexedPhotos: nat)

  datatype ViewResult = ViewResult(store: Store, jobs: seq<Job>, response: Response)

  const NotYetProcessedText: string := "La demande n'est pas encore traitée"
  const NoPhotoText: string := "Aucune photo trouvée pour cette demande"
  const PhotosGoneText: string := "Les photos ne sont plus disponibles"
  const IndexingInProgressText: string := "Indexing in progress"
  const IndexingStartedText: string := "Indexing started"
  const HttpOk: int := 200
  const HttpConflict: int := 409

  // ---------------------------------------------------------------------------
  // index

  /** The demand a valid submission saves: cleaned fields, the upload, the
      submission instant, a fresh token, and column defaults for the rest. */
  function SubmittedDemand(sub: Submission, now: Time, token: nat): Demand
    requires sub.directory.Some? && sub.photo.Some?
  {
    NewDemand(Strip(sub.name), Strip(sub.firstName), Strip(sub.email), sub.photo.value, now, sub.directory.value, token)
  }

  /** The submission page. A valid post saves the demand under the next id
      and dispatches exactly one encode job for it; anything else changes
      nothing. `token` is the random request token the new row gets. */
  function Index(cfg: Config, s: Store, req: Request, now: Time, token: nat, emailOk: string -> bool): (r: ViewResult)
    ensures !(req.Post? && IsValid(cfg, s, req.sub, now, emailOk)) ==> r.store == s && r.jobs == []
    ensures req.Get? ==> r.response == IndexPage(false, {})
    ensures req.Post? && !IsValid(cfg, s, req.sub, now, emailOk) ==>
              r.response == IndexPage(false, Errors(cfg, s, req.sub, now, emailOk)) && !r.response.success
    ensures req.Post? && IsValid(cfg, s, req.sub, now, emailOk) ==>
              var id := s.nextDemandId;
              && r.response == IndexPage(true, {})
              && r.jobs == [EncodeDemandJob(id)]
              && r.store.demands.Keys == s.demands.Keys + {id}
              && (forall d :: d in s.demands && d != id ==> r.store.demands[d] == s.demands[d])
              && r.store.demands[id].status == NotProcessed
              && r.store.demands[id].name == Strip(req.sub.name)
              && r.store.demands[id].firstName == Strip(req.sub.firstName)
              && r.store.demands[id].email == Strip(req.sub.email)
              && Some(r.store.demands[id].directory) == req.sub.directory
              && r.store.demands[id].photo == req.sub.photo
              && r.store.demands[id].date == now
              && r.store.demands[id].requestToken == token
              && r.store.demands[id].photos == {}
              && r.store.demands[id].faceEncoding.None?
              && r.store.demands[id].searchTaskId.None?
              && r.store.uploads == s.uploads + {req.sub.photo.value}
              && r.store.nextDemandId == id + 1
              && r.store.(demands := s.demands, uploads := s.uploads, nextDemandId := s.nextDemandId) == s
  {
    match req
    case Get => ViewResult(s, [], IndexPage(false, {}))
    case Post(sub) =>
      var errors := Errors(cfg, s, sub, now, emailOk);
      if errors != {} then ViewResult(s, [], IndexPage(false, errors))
      else
        ValidSubmissionShape(cfg, s, sub, now, emailOk);
        var id := s.nextDemandId;
        var t := s.(demands := s.demands[id := SubmittedDemand(sub, now, token)],
                    uploads := s.uploads + {sub.photo.value},
                    nextDemandId := id + 1);
        ViewResult(t, [EncodeDemandJob(id)], IndexPage(true, {}))
  }

  // ---------------------------------------------------------------------------
  // download

  function WithToken(s: Store, token: nat): set<DemandId> {
    set id | id in s.demands && s.demands[id].requestToken == token
  }

  /** The stored photos linked to a demand. */
  function LinkedPhotos(s: Store, d: Demand): set<PhotoId> {
    set p | p in d.photos && p in s.photos
  }

  function EntryOf(p: Photo): ZipEntry {
    ZipEntry(p.path, Basename(p.path))
  }

  /** The reply for the one demand the token found: refused until the demand
      is PROCESSED and while it has no photo; otherwise an archive named after
      the demand with every linked photo under its file name, unless one of
      the files is no longer on disk (`onDisk` lists the files that are). */
  function DownloadOf(s: Store, d: Demand, onDisk: set<string>): (r: Response)
    ensures !IsProcessed(d) <==> r == Text(NotYetProcessedText, HttpOk)
    ensures IsProcessed(d) && LinkedPhotos(s, d) == {} <==> r == Text(NoPhotoText, HttpOk)
    ensures r.Attachment? <==>
              && IsProcessed(d) && LinkedPhotos(s, d) != {}
              && forall p :: p in LinkedPhotos(s, d) ==> s.photos[p].path in onDisk
    ensures r == Text(PhotosGoneText, HttpOk) <==>
              && IsProcessed(d) && LinkedPhotos(s, d) != {}
              && exists p :: p in LinkedPhotos(s, d) && s.photos[p].path !in onDisk
    ensures r.Attachment? ==>
              && r.filename == "photos_" + d.name + ".zip"
              && ArchiveOf(s, LinkedPhotos(s, d), r.entries)
  {
    if !IsProcessed(d) then Text(NotYetProcessedText, HttpOk)
    else
      var linked := LinkedPhotos(s, d);
      if linked == {} then Text(NoPhotoText, HttpOk)
      else if exists p :: p in linked && s.photos[p].path !in onDisk then Text(PhotosGoneText, HttpOk)
      else Attachment("photos_" + d.name + ".zip", ZipEntries(s, linked))
  }

  /** Download by request token: the demand must be the only one with the
      token. */
  function Download(s: Store, token: nat, onDisk: set<string>): (r: ViewResult)
    ensures r.store == s && r.jobs == []
    ensures r.response == NotFound <==> WithToken(s, token) == {}
    ensures r.response == MultipleFound <==> |WithToken(s, token)| > 1
    ensures |WithToken(s, token)| == 1 ==>
              && WithToken(s, token) == {Ordered.MinOf(WithToken(s, token))}
              && r.response == DownloadOf(s, s.demands[Ordered.MinOf(WithToken(s, token))], onDisk)
  {
    var found := WithToken(s, token);
    if found == {} then ViewResult(s, [], NotFound)
    else if |found| > 1 then ViewResult(s, [], MultipleFound)
    else
      var id := Ordered.MinOf(found);
      OnlyMember(found, id);
      ViewResult(s, [], DownloadOf(s, s.demands[id], onDisk))
  }

  /** A set of one element holds nothing but that element. */
  lemma OnlyMember(xs: set<DemandId>, x: DemandId)
    requires |xs| == 1 && x in xs
    ensures xs == {x}
  {
    assert |xs - {x}| == 0;
  }

  /** `entries` archives exactly the photos of `photos`, each once, under its
      file name. */
  predicate ArchiveOf(s: Store, photos: set<PhotoId>, entries: seq<ZipEntry>)
    requires photos <= s.photos.Keys
  {
    && |entries| == |photos|
    && (forall k :: 0 <= k < |entries| ==> exists p :: p in photos && entries[k] == EntryOf(s.photos[p]))
    && (forall p :: p in photos ==> EntryOf(s.photos[p]) in entries)
  }

  /** One archive entry per listed photo, in list order. */
  function EntriesFor(s: Store, order: seq<PhotoId>): (entries: seq<ZipEntry>)
    requires forall k :: 0 <= k < |order| ==> order[k] in s.photos
    ensures |entries| == |order|
    ensures forall k :: 0 <= k < |order| ==> entries[k] == EntryOf(s.photos[order[k]])
  {
    seq(|order|, k requires 0 <= k < |order| => EntryOf(s.photos[order[k]]))
  }

  /** One archive entry per photo, in ascending key order. */
  function ZipEntries(s: Store, photos: set<PhotoId>): (entries: seq<ZipEntry>)
    requires photos <= s.photos.Keys
    ensures ArchiveOf(s, photos, entries)
  {
    var order := Ordered.SortedSeq(photos);
    var entries := EntriesFor(s, order);
    EntriesOver(s, photos, order, entries);
    entries
  }

  /** Entries built one per element of an enumeration of `photos` that
      lists each once archive exactly `photos`. */
  lemma EntriesOver(s: Store, photos: set<PhotoId>, order: seq<PhotoId>, entries: seq<ZipEntry>)
    requires photos <= s.photos.Keys
    requires |order| == |photos| && forall x :: x in photos <==> x in order
    requires |entries| == |order| && forall k :: 0 <= k < |order| ==> entries[k] == EntryOf(s.photos[order[k]])
    ensures ArchiveOf(s, photos, entries)
  {
    forall k | 0 <= k < |entries| ensures exists p :: p in photos && entries[k] == EntryOf(s.photos[p]) {
      assert order[k] in photos;
    }
    forall p | p in photos ensures EntryOf(s.photos[p]) in entries {
      var k :| 0 <= k < |order| && order[k] == p;
      assert entries[k] == EntryOf(s.photos[p]);
    }
  }

  // ---------------------------------------------------------------------------
  // Staff endpoints

  /** Starts the indexing of a directory, refused with a conflict while one is
      under way. */
  function IndexingDirectoryView(s: Store, backend: GroupBackend, dir: DirId): (r: ViewResult)
    ensures r.store == s
    ensures dir !in s.dirs ==> r.response == NotFound && r.jobs == []
    ensures dir in s.dirs ==>
              && (IndexingStatus(s, dir, backend) == Indexing <==> r.response == Text(IndexingInProgressText, HttpConflict))
              && (IndexingStatus(s, dir, backend) == Indexing <==> r.jobs == [])
              && (IndexingStatus(s, dir, backend) != Indexing <==> r.jobs == [IndexJob(dir)])
  {
    if dir !in s.dirs then ViewResult(s, [], NotFound)
    else if IndexingStateName(IndexingStatus(s, dir, backend)) == "INDEXING" then
      ViewResult(s, [], Text(IndexingInProgressText, HttpConflict))
    else ViewResult(s, [IndexJob(dir)], Text(IndexingStartedText, HttpOk))
  }

  /** Reports a directory's indexing status and its two counters. */
  function IndexingDirectoryProgress(s: Store, backend: GroupBackend, dir: DirId): (r: ViewResult)
    ensures r.store == s && r.jobs == []
    ensures dir !in s.dirs <==> r.response == NotFound
    ensures dir in s.dirs ==>
              && r.response.Progress?
              && r.response.status == IndexingStateName(IndexingStatus(s, dir, backend))
              && r.response.totalPhotos == s.dirs[dir].totalPhotos
              && r.response.indexedPhotos == |PhotosOf(s, dir)|
  {
    if dir !in s.dirs then ViewResult(s, [], NotFound)
    else
      ViewResult(s, [], Progress(IndexingStateName(IndexingStatus(s, dir, backend)),
                                 s.dirs[dir].totalPhotos, IndexedPhotos(s, dir)))
  }

  /** Dispatches a search of a directory at once, provided it is INDEXED and
      has a demand waiting. */
  function ForceSearching(s: Store, backend: GroupBackend, dir: DirId): (r: ViewResult)
    ensures r.store == s
    ensures dir !in s.dirs ==> r.response == NotFound && r.jobs == []
    ensures dir in s.dirs && IndexingStatus(s, dir, backend) != Indexed ==>
              r.response == Json("ERROR", "Directory not indexed") && r.jobs == []
    ensures dir in s.dirs && IndexingStatus(s, dir, backend) == Indexed && WaitingIds(s, dir) == {} ==>
              r.response == Json("NOTHING_TO_SEARCH", NoDemandToSearch) && r.jobs == []
    ensures r.jobs != [] <==>
              dir in s.dirs && IndexingStatus(s, dir, backend) == Indexed && WaitingIds(s, dir) != {}
    ensures r.jobs != [] ==> r.jobs == [SearchJob(dir)] && r.response == Json("STARTED", "Search started")
  {
    if dir !in s.dirs then ViewResult(s, [], NotFound)
    else if IndexingStateName(IndexingStatus(s, dir, backend)) != "INDEXED" then
      ViewResult(s, [], Json("ERROR", "Directory not indexed"))
    else if |WaitingIds(s, dir)| == 0 then ViewResult(s, [], Json("NOTHING_TO_SEARCH", NoDemandToSearch))
    else ViewResult(s, [SearchJob(dir)], Json("STARTED", "Search started"))
  }

  /** Dispatches the encode job of a demand again, refused when the demand
      has no uploaded image. */
  function RerunFaceEncoding(s: Store, id: DemandId): (r: ViewResult)
    ensures r.store == s
    ensures id !in s.demands ==> r.response == NotFound && r.jobs == []
    ensures id in s.demands && s.demands[id].photo.None? ==>
              r.response == Json("ERROR", "Demand has no photo") && r.jobs == []
    ensures r.jobs != [] <==> id in s.demands && s.demands[id].photo.Some?
    ensures r.jobs != [] ==> r.jobs == [EncodeDemandJob(id)] && r.response == Json("STARTED", "Encoding started")
  {
    if id !in s.demands then ViewResult(s, [], NotFound)
    else if s.demands[id].photo.None? then ViewResult(s, [], Json("ERROR", "Demand has no photo"))
    else ViewResult(s, [EncodeDemandJob(id)], Json("STARTED", "Encoding started"))
  }

  /** The same view with its guard as views.py writes it: the image
      attribute of a loaded row is never the None object, even when the row
      has no file, so the refusal never happens. */
  function RerunFaceEncodingAsWritten(s: Store, id: DemandId): (r: ViewResult)
    ensures r.store == s
    ensures id !in s.demands <==> r.response == NotFound
    ensures id in s.demands <==> r.jobs == [EncodeDemandJob(id)]
  {
    if id !in s.demands then ViewResult(s, [], NotFound)
    else ViewResult(s, [EncodeDemandJob(id)], Json("STARTED", "Encoding started"))
  }

  // ---------------------------------------------------------------------------
  // Properties

  /** The guard as written lets through a demand whose image was already
      deleted (every demand whose encoding succeeded): the encode job is
      dispatched again and puts the row back to FACE_ENCODING, whatever state
      it had reached, so a PROCESSED demand stops being downloadable. With
      recognition on the job then fails reading the missing image; with it
      off it returns with nothing encoded. The intended view refuses. */
  lemma RerunAsWrittenIgnoresMissingPhoto(cfg: Config, s: Store, id: DemandId, faces: seq<FaceVector>)
    requires id in s.demands && s.demands[id].photo.None?
    ensures RerunFaceEncodingAsWritten(s, id).jobs == [EncodeDemandJob(id)]
    ensures var e := EncodeDemandPhotoAsWritten(cfg, s, id, faces);
            && id in e.store.demands
            && e.store.demands[id].status == FaceEncoding
            && !IsProcessed(e.store.demands[id])
            && (cfg.withFaceRecognition ==> e.outcome == Raised(NoFileAssociated))
            && (!cfg.withFaceRecognition ==> e.outcome == Returned(NoValue))
    ensures RerunFaceEncoding(s, id).jobs == []
    ensures RerunFaceEncoding(s, id).response == Json("ERROR", "Demand has no photo")
  {
  }

  /** After a successful encode the intended view refuses to re-run it: the
      image is gone. */
  lemma RerunRefusedAfterEncoding(cfg: Config, s: Store, id: DemandId, faces: seq<FaceVector>)
    requires cfg.withFaceRecognition && id in s.demands && s.demands[id].photo.Some? && faces != []
    ensures var t := EncodeDemandPhoto(cfg, s, id, faces).store;
            && RerunFaceEncoding(t, id).jobs == []
            && RerunFaceEncodingAsWritten(t, id).jobs == [EncodeDemandJob(id)]
  {
  }

  /** A saved submission keeps the store well formed when its token and id
      are new. */
  lemma IndexPreservesWf(cfg: Config, s: Store, sub: Submission, now: Time, token: nat, emailOk: string -> bool)
    requires Wf(s)
    ensures Wf(Index(cfg, s, Post(sub), now, token, emailOk).store)
  {
    if IsValid(cfg, s, sub, now, emailOk) {
      ValidSubmissionShape(cfg, s, sub, now, emailOk);
    }
  }

  /** Submitting the same form again within MIN_TIME_BETWEEN_DEMANDS minutes
      of a saved submission is refused as a duplicate and saves nothing. */
  lemma ResubmissionRefused(cfg: Config, s: Store, sub: Submission, now: Time, later: Time, token: nat, token': nat,
                            emailOk: string -> bool)
    requires IsValid(cfg, s, sub, now, emailOk)
    requires now >= later - cfg.minTimeBetweenDemands * SecondsPerMinute
    ensures var t := Index(cfg, s, Post(sub), now, token, emailOk).store;
            var again := Index(cfg, t, Post(sub), later, token', emailOk);
            && DuplicateDemandError in again.response.errors
            && again.store == t && again.jobs == []
  {
    ValidSubmissionShape(cfg, s, sub, now, emailOk);
    var t := Index(cfg, s, Post(sub), now, token, emailOk).store;
    var id := s.nextDemandId;
    assert CleanDirectory(t, sub.directory) == Some(t.demands[id].directory);
    SameNameRecentlyIsDuplicate(cfg, t, sub, later, emailOk, id);
  }

  /** A valid submission followed by its encode job, the image showing a
      face: the demand is waiting for the search of its directory and its
      upload is gone from storage again. */
  lemma SubmitThenEncode(cfg: Config, s: Store, sub: Submission, now: Time, token: nat, emailOk: string -> bool,
                         faces: seq<FaceVector>)
    requires IsValid(cfg, s, sub, now, emailOk) && cfg.withFaceRecognition && faces != []
    requires sub.photo.Some? ==> sub.photo.value !in s.uploads
    ensures var r := Index(cfg, s, Post(sub), now, token, emailOk);
            var id := s.nextDemandId;
            var e := EncodeDemandPhoto(cfg, r.store, id, faces);
            && e.store.demands[id].status == WaitingForSearch
            && id in WaitingIds(e.store, sub.directory.value)
            && e.store.uploads == s.uploads
  {
    ValidSubmissionShape(cfg, s, sub, now, emailOk);
  }

  /** The token of a fresh submission finds exactly its demand, which is not
      yet downloadable. */
  lemma SubmittedTokenNotYetDownloadable(cfg: Config, s: Store, sub: Submission, now: Time, token: nat,
                                         emailOk: string -> bool, onDisk: set<string>)
    requires IsValid(cfg, s, sub, now, emailOk)
    requires forall d :: d in s.demands ==> s.demands[d].requestToken != token
    ensures var t := Index(cfg, s, Post(sub), now, token, emailOk).store;
            Download(t, token, onDisk).response == Text(NotYetProcessedText, HttpOk)
  {
    var t := Index(cfg, s, Post(sub), now, token, emailOk).store;
    var id := s.nextDemandId;
    forall d | d in t.demands && d != id
      ensures t.demands[d].requestToken != token
    {
      assert t.demands[d] == s.demands[d];
    }
    OnlyHolderOfToken(t, token, id, onDisk);
  }

  /** A token held by one demand only, not yet PROCESSED, downloads the "not
      yet processed" reply. */
  lemma OnlyHolderOfToken(t: Store, token: nat, id: DemandId, onDisk: set<string>)
    requires id in t.demands && t.demands[id].requestToken == token && !IsProcessed(t.demands[id])
    requires forall d :: d in t.demands && d != id ==> t.demands[d].requestToken != token
    ensures Download(t, token, onDisk).response == Text(NotYetProcessedText, HttpOk)
  {
    assert WithToken(t, token) == {id};
    assert Ordered.MinOf(WithToken(t, token)) == id;
  }

  /** A forced search that the view starts selects at least one demand when
      it runs on the same store. */
  lemma ForcedSearchFindsDemands(s: Store, backend: GroupBackend, dir: DirId)
    requires ForceSearching(s, backend, dir).jobs != []
    ensures SearchPhotos(s, dir).outcome == Returned(Message(SearchStarted(dir)))
    ensures |SearchPhotos(s, dir).jobs| == |PhotosOf(s, dir)| + 1
  {
  }

  /** The indexing status names are distinct, so comparing names is comparing
      states. */
  lemma IndexingStateNameInjective(a: IndexingState, b: IndexingState)
    ensures IndexingStateName(a) == IndexingStateName(b) ==> a == b
  {
  }
}
