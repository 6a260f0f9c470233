/** The background jobs. Each job is one atomic step over the store: it
    returns the new store, the jobs it dispatches, the mails it hands to the
    mail connection and what the job itself returns or raises.

    The face library is not modelled: the faces found on an image are an
    input of the step that encodes it, and comparing faces is the predicate
    `matches(query, face)` ("within tolerance"), applied element-wise. */
module Tasks {
  import opened Text
  import opened Ordered
  import opened Settings
  import opened Models

  /** A dispatched job, with its arguments. */
  datatype Job =
    | EncodeDemandJob(demand: DemandId)
    | ErrorMailJob(error: string, demand: DemandId)
    | SearchJob(dir: DirId)
    | CompareJob(demandIds: seq<DemandId>, queries: seq<FaceVector>, photo: PhotoId)
    | EndingJob(demandIds: seq<DemandId>)
    | EncodeFileJob(dir: DirId, path: string)
    | IndexJob(dir: DirId)

  datatype MailKind = ErrorMail(error: string) | NoPhotoFoundMail | PhotosAvailableMail

  /** One mail: the demand it is about, its recipient and which template it uses. */
  datatype Mail = Mail(demand: DemandId, recipient: string, kind: MailKind)

  /** What a job returns. */
  datatype Value =
    | NoValue
    | Message(text: string)
    | DemandError(demand: DemandId, error: string)
    | FileCount(count: nat)

  datatype Outcome =
    | Returned(value: Value)
    | Raised(error: string)
    /** The job asked the queue to run it again; `retries` is the new attempt count. */
    | RetryScheduled(retries: nat)

  datatype Step = Step(store: Store, jobs: seq<Job>, mails: seq<Mail>, outcome: Outcome)

  const DemandNotFound: string := "Demand not found"
  const NoPhotoFound: string := "No photo found"
  /** The error reading the path of an image field that holds no file. */
  const NoFileAssociated: string := "The 'photo' attribute has no file associated with it."
  const NoFaceFound: string := "No face found"
  const NoFaceFoundInPhoto: string := "No face found in photo"
  const NoDemandToSearch: string := "No demand to search"
  const SearchEnded: string := "Search ended"
  const Ok: string := "ok"
  const DirectoryNotFound: string := "Directory not found"
  const MaxRetriesExceeded: string := "MaxRetriesExceededError"

  // ---------------------------------------------------------------------------
  // task_error_mail

  /** Sends the error mail of a demand; a vanished demand is an exception. */
  function ErrorMailTask(s: Store, error: string, id: DemandId): (r: Step)
    ensures r.store == s && r.jobs == []
    ensures id !in s.demands <==> r.outcome.Raised?
    ensures id !in s.demands ==> r.mails == []
    ensures id in s.demands ==> r.mails == [Mail(id, s.demands[id].email, ErrorMail(error))]
  {
    if id !in s.demands then Step(s, [], [], Raised(DemandNotFound))
    else Step(s, [], [Mail(id, s.demands[id].email, ErrorMail(error))], Returned(NoValue))
  }

  // ---------------------------------------------------------------------------
  // encode_demand_photo

  /** Encodes the face of a demand's uploaded image (`faces` is what the
      library finds on it), then fires a search of the demand's directory when
      strictly more than FACE_SEARCHING_BATCH_SIZE demands wait there. */
  function EncodeDemandPhoto(cfg: Config, s: Store, id: DemandId, faces: seq<FaceVector>): (r: Step)
    ensures id !in s.demands ==> r == Step(s, [], [], Raised(DemandNotFound))
    // only this demand's row and its upload can change
    ensures id in s.demands ==>
              && r.store.demands.Keys == s.demands.Keys
              && (forall d :: d in s.demands && d != id ==> r.store.demands[d] == s.demands[d])
              && r.store.(demands := s.demands, uploads := s.uploads) == s
              && r.mails == []
    // the FACE_ENCODING state is saved before the upload is looked at
    ensures id in s.demands && s.demands[id].photo.None? ==>
              && r.store.demands[id] == s.demands[id].(status := FaceEncoding)
              && r.store.uploads == s.uploads
              && r.jobs == [] && r.outcome == Raised(NoPhotoFound)
    ensures id in s.demands && s.demands[id].photo.Some? && cfg.withFaceRecognition && faces == [] ==>
              && r.store.demands[id] == s.demands[id].(status := Models.NoFaceFound)
              && r.store.uploads == s.uploads
              && r.jobs == [ErrorMailJob(NoFaceFound, id)]
              && r.outcome == Returned(DemandError(id, NoFaceFoundInPhoto))
    ensures id in s.demands && s.demands[id].photo.Some? && cfg.withFaceRecognition && faces != [] ==>
              && r.store.demands[id] ==
                 s.demands[id].(status := WaitingForSearch, faceEncoding := Some(faces[0]), photo := None)
              && r.store.uploads == s.uploads - {s.demands[id].photo.value}
    ensures id in s.demands && s.demands[id].photo.Some? && !cfg.withFaceRecognition ==>
              && r.store.demands[id] == s.demands[id].(status := FaceEncoding)
              && r.store.uploads == s.uploads
    // the batching trigger, on the store as the step leaves it
    ensures id in s.demands && s.demands[id].photo.Some? && !(cfg.withFaceRecognition && faces == []) ==>
              var dir := s.demands[id].directory;
              && r.outcome == Returned(NoValue)
              && (|WaitingIds(r.store, dir)| > cfg.faceSearchingBatchSize ==> r.jobs == [SearchJob(dir)])
              && (|WaitingIds(r.store, dir)| <= cfg.faceSearchingBatchSize ==> r.jobs == [])
  {
    if id !in s.demands then Step(s, [], [], Raised(DemandNotFound))
    else
      var d := s.demands[id].(status := FaceEncoding);
      var s1 := s.(demands := s.demands[id := d]);
      if d.photo.None? then Step(s1, [], [], Raised(NoPhotoFound))
      else if cfg.withFaceRecognition && |faces| == 0 then
        Step(s.(demands := s.demands[id := d.(status := Models.NoFaceFound)]),
             [ErrorMailJob(NoFaceFound, id)], [], Returned(DemandError(id, NoFaceFoundInPhoto)))
      else
        var s2 := if cfg.withFaceRecognition then
          s.(demands := s.demands[id := d.(faceEncoding := Some(faces[0]), status := WaitingForSearch, photo := None)],
             uploads := s.uploads - {d.photo.value})
        else s1;
        var jobs := if |WaitingIds(s2, d.directory)| > cfg.faceSearchingBatchSize then [SearchJob(d.directory)] else [];
        Step(s2, jobs, [], Returned(NoValue))
  }

  /** The same job with its image test as tasks.py writes it. The image
      attribute of a loaded row is never the None object, so a demand without
      an image goes past that test: with recognition on, reading the image's
      path then fails; with recognition off, the job goes on to the batching
      recount and returns normally. A demand with an image is encoded as
      above. */
  function EncodeDemandPhotoAsWritten(cfg: Config, s: Store, id: DemandId, faces: seq<FaceVector>): (r: Step)
    ensures !(id in s.demands && s.demands[id].photo.None?) ==> r == EncodeDemandPhoto(cfg, s, id, faces)
    ensures id in s.demands && s.demands[id].photo.None? ==>
              && r.store == s.(demands := s.demands[id := s.demands[id].(status := FaceEncoding)])
              && r.mails == []
              && r.outcome != Raised(NoPhotoFound)
    ensures id in s.demands && s.demands[id].photo.None? && cfg.withFaceRecognition ==>
              r.jobs == [] && r.outcome == Raised(NoFileAssociated)
    ensures id in s.demands && s.demands[id].photo.None? && !cfg.withFaceRecognition ==>
              var dir := s.demands[id].directory;
              && r.outcome == Returned(NoValue)
              && (|WaitingIds(r.store, dir)| > cfg.faceSearchingBatchSize ==> r.jobs == [SearchJob(dir)])
              && (|WaitingIds(r.store, dir)| <= cfg.faceSearchingBatchSize ==> r.jobs == [])
  {
    if id in s.demands && s.demands[id].photo.None? then
      var d := s.demands[id].(status := FaceEncoding);
      var s1 := s.(demands := s.demands[id := d]);
      if cfg.withFaceRecognition then Step(s1, [], [], Raised(NoFileAssociated))
      else
        var jobs := if |WaitingIds(s1, d.directory)| > cfg.faceSearchingBatchSize then [SearchJob(d.directory)] else [];
        Step(s1, jobs, [], Returned(NoValue))
    else EncodeDemandPhoto(cfg, s, id, faces)
  }

  /** For a demand without an image the job as written never raises "No photo
      found", where the intended job always does; with recognition off it even
      dispatches the directory's search when enough demands wait there. */
  lemma EncodeAsWrittenNeverReportsNoPhoto(cfg: Config, s: Store, id: DemandId, faces: seq<FaceVector>)
    requires id in s.demands && s.demands[id].photo.None?
    ensures EncodeDemandPhoto(cfg, s, id, faces).outcome == Raised(NoPhotoFound)
    ensures EncodeDemandPhoto(cfg, s, id, faces).jobs == []
    ensures EncodeDemandPhotoAsWritten(cfg, s, id, faces).outcome != Raised(NoPhotoFound)
    ensures EncodeDemandPhotoAsWritten(cfg, s, id, faces).store == EncodeDemandPhoto(cfg, s, id, faces).store
    ensures !cfg.withFaceRecognition &&
            |WaitingIds(EncodeDemandPhoto(cfg, s, id, faces).store, s.demands[id].directory)| > cfg.faceSearchingBatchSize
            ==> EncodeDemandPhotoAsWritten(cfg, s, id, faces).jobs == [SearchJob(s.demands[id].directory)]
  {
  }

  // ---------------------------------------------------------------------------
  // task_check_if_search_photos_needed

  /** A waiting demand that is at least MAX_WAITING_TIME_BEFORE_SEARCH old. */
  predicate Overdue(cfg: Config, now: Time, d: Demand) {
    IsWaiting(d) && d.date <= now - cfg.maxWaitingTimeBeforeSearch * SecondsPerMinute
  }

  function OverdueDirs(cfg: Config, s: Store, now: Time): set<DirId> {
    set d | d in s.demands && Overdue(cfg, now, s.demands[d]) :: s.demands[d].directory
  }

  /** One search job per listed directory, in order. */
  function SearchJobs(dirs: seq<DirId>): (jobs: seq<Job>)
    ensures |jobs| == |dirs|
    ensures forall i :: 0 <= i < |jobs| ==> jobs[i] == SearchJob(dirs[i])
  {
    seq(|dirs|, i requires 0 <= i < |dirs| => SearchJob(dirs[i]))
  }

  lemma SearchJobsOfSorted(dirs: set<DirId>)
    ensures forall j :: j in SearchJobs(SortedSeq(dirs)) ==> j.SearchJob?
    ensures forall dir :: SearchJob(dir) in SearchJobs(SortedSeq(dirs)) <==> dir in dirs
    ensures forall i, j :: 0 <= i < j < |SearchJobs(SortedSeq(dirs))| ==>
              SearchJobs(SortedSeq(dirs))[i] != SearchJobs(SortedSeq(dirs))[j]
  {
    var order := SortedSeq(dirs);
    var jobs := SearchJobs(order);
    forall dir ensures SearchJob(dir) in jobs <==> dir in dirs {
      if SearchJob(dir) in jobs {
        var i :| 0 <= i < |jobs| && jobs[i] == SearchJob(dir);
        assert order[i] == dir;
      }
      if dir in dirs {
        var i :| 0 <= i < |order| && order[i] == dir;
        assert jobs[i] == SearchJob(dir);
      }
    }
    forall i, j | 0 <= i < j < |jobs| ensures jobs[i] != jobs[j] {
      assert order[i] < order[j];
    }
  }

  lemma OverdueDirsHoldOverdue(cfg: Config, s: Store, now: Time)
    ensures forall dir :: dir in OverdueDirs(cfg, s, now) <==>
              exists d :: d in s.demands && Overdue(cfg, now, s.demands[d]) && s.demands[d].directory == dir
  {
  }

  /** The periodic sweep: one search per directory that holds an overdue demand. */
  function CheckIfSearchPhotosNeeded(cfg: Config, s: Store, now: Time): (r: Step)
    ensures r.store == s && r.mails == [] && r.outcome == Returned(NoValue)
    ensures forall j :: j in r.jobs ==> j.SearchJob?
    ensures forall dir :: SearchJob(dir) in r.jobs <==>
              exists d :: d in s.demands && Overdue(cfg, now, s.demands[d]) && s.demands[d].directory == dir
    ensures forall i, j :: 0 <= i < j < |r.jobs| ==> r.jobs[i] != r.jobs[j]
  {
    SearchJobsOfSorted(OverdueDirs(cfg, s, now));
    OverdueDirsHoldOverdue(cfg, s, now);
    Step(s, SearchJobs(SortedSeq(OverdueDirs(cfg, s, now))), [], Returned(NoValue))
  }

  // ---------------------------------------------------------------------------
  // task_search_photos

  /** `queries[i]` is the face of demand `ids[i]`. */
  predicate QueriesOf(s: Store, ids: seq<DemandId>, queries: seq<FaceVector>) {
    && |queries| == |ids|
    && forall i :: 0 <= i < |ids| ==> ids[i] in s.demands && s.demands[ids[i]].faceEncoding == Some(queries[i])
  }

  predicate Distinct<T(==)>(xs: seq<T>) {
    forall i, j :: 0 <= i < j < |xs| ==> xs[i] != xs[j]
  }

  /** The compare jobs of one search: one per photo of `photos`, all carrying
      the same query. */
  predicate CompareJobsFor(jobs: seq<Job>, ids: seq<DemandId>, queries: seq<FaceVector>, photos: set<PhotoId>) {
    && |jobs| == |photos|
    && (forall j :: 0 <= j < |jobs| ==>
          jobs[j].CompareJob? && jobs[j].demandIds == ids && jobs[j].queries == queries && jobs[j].photo in photos)
    && (forall i, j :: 0 <= i < j < |jobs| ==> jobs[i].photo != jobs[j].photo)
    && (forall p :: p in photos ==> exists j :: 0 <= j < |jobs| && jobs[j].CompareJob? && jobs[j].photo == p)
  }

  function SearchStarted(dir: DirId): string {
    "Search photos in directory n° " + NatToString(dir) + " started."
  }

  function QueryVectors(s: Store, ids: seq<DemandId>): (q: seq<FaceVector>)
    requires forall i :: 0 <= i < |ids| ==> ids[i] in s.demands && s.demands[ids[i]].faceEncoding.Some?
    ensures QueriesOf(s, ids, q)
  {
    seq(|ids|, i requires 0 <= i < |ids| => s.demands[ids[i]].faceEncoding.value)
  }

  /** The demands a search of `dir` selects, in ascending id order. */
  function SelectedIds(s: Store, dir: DirId): (ids: seq<DemandId>)
    ensures forall d :: d in ids <==> d in WaitingIds(s, dir)
    ensures |ids| == |WaitingIds(s, dir)|
    ensures Distinct(ids)
    ensures forall i :: 0 <= i < |ids| ==> ids[i] in s.demands && s.demands[ids[i]].faceEncoding.Some?
  {
    var ids := SortedSeq(WaitingIds(s, dir));
    assert forall i :: 0 <= i < |ids| ==> ids[i] in WaitingIds(s, dir);
    ids
  }

  /** One compare job per photo of `photos`, in order, all with the same query. */
  function CompareJobs(ids: seq<DemandId>, queries: seq<FaceVector>, photos: set<PhotoId>): (jobs: seq<Job>)
    ensures CompareJobsFor(jobs, ids, queries, photos)
  {
    var order := SortedSeq(photos);
    var jobs := seq(|order|, j requires 0 <= j < |order| => CompareJob(ids, queries, order[j]));
    CompareJobsOver(ids, queries, photos, order, jobs);
    jobs
  }

  /** Jobs built one per element of an increasing enumeration of `photos`
      are the compare jobs of `photos`. */
  lemma CompareJobsOver(ids: seq<DemandId>, queries: seq<FaceVector>, photos: set<PhotoId>, order: seq<PhotoId>,
                        jobs: seq<Job>)
    requires StrictlyIncreasing(order) && |order| == |photos| && forall x :: x in photos <==> x in order
    requires |jobs| == |order| && forall j :: 0 <= j < |jobs| ==> jobs[j] == CompareJob(ids, queries, order[j])
    ensures CompareJobsFor(jobs, ids, queries, photos)
  {
    forall p | p in photos
      ensures exists j :: 0 <= j < |jobs| && jobs[j].CompareJob? && jobs[j].photo == p
    {
      var j :| 0 <= j < |order| && order[j] == p;
      assert jobs[j].photo == p;
    }
  }

  /** The bulk update of a search: the selected demands become PROCESSING. */
  function MarkProcessing(s: Store, selected: set<DemandId>): (r: Store)
    ensures r.demands.Keys == s.demands.Keys
    ensures forall d :: d in s.demands ==>
              r.demands[d] == if d in selected then s.demands[d].(status := Processing) else s.demands[d]
    ensures r.(demands := s.demands) == s
  {
    s.(demands := map d | d in s.demands ::
         if d in selected then s.demands[d].(status := Processing) else s.demands[d])
  }

  /** Selects the demands waiting in `dir`, dispatches one compare job per
      photo of `dir` joined by the ending job, and only then marks the
      selected demands PROCESSING. */
  function SearchPhotos(s: Store, dir: DirId): (r: Step)
    ensures WaitingIds(s, dir) == {} ==> r == Step(s, [], [], Returned(Message(NoDemandToSearch)))
    ensures WaitingIds(s, dir) != {} ==>
              var ids := SelectedIds(s, dir);
              && |r.jobs| == |PhotosOf(s, dir)| + 1
              && CompareJobsFor(r.jobs[..|r.jobs| - 1], ids, QueryVectors(s, ids), PhotosOf(s, dir))
              && r.jobs[|r.jobs| - 1] == EndingJob(ids)
              && r.store == MarkProcessing(s, WaitingIds(s, dir))
              && r.mails == []
              && r.outcome == Returned(Message(SearchStarted(dir)))
  {
    if WaitingIds(s, dir) == {} then Step(s, [], [], Returned(Message(NoDemandToSearch)))
    else
      var ids := SelectedIds(s, dir);
      var compares := CompareJobs(ids, QueryVectors(s, ids), PhotosOf(s, dir));
      var jobs := compares + [EndingJob(ids)];
      assert jobs[..|jobs| - 1] == compares;
      Step(MarkProcessing(s, WaitingIds(s, dir)), jobs, [], Returned(Message(SearchStarted(dir))))
  }

  // ---------------------------------------------------------------------------
  // task_find_faces

  /** The comparison of one face of a photo against every query, one boolean
      per query. */
  function Compare(queries: seq<FaceVector>, face: FaceVector, matches: (FaceVector, FaceVector) -> bool): (r: seq<bool>)
    ensures |r| == |queries|
    ensures forall i :: 0 <= i < |r| ==> r[i] == matches(queries[i], face)
  {
    seq(|queries|, i requires 0 <= i < |queries| => matches(queries[i], face))
  }

  function Or(a: seq<bool>, b: seq<bool>): (r: seq<bool>)
    requires |a| == |b|
    ensures |r| == |a|
    ensures forall i :: 0 <= i < |r| ==> r[i] == (a[i] || b[i])
  {
    seq(|a|, i requires 0 <= i < |a| => a[i] || b[i])
  }

  /** Some face of the photo matches the query. */
  predicate FaceMatches(query: FaceVector, faces: seq<FaceVector>, matches: (FaceVector, FaceVector) -> bool) {
    exists k :: 0 <= k < |faces| && matches(query, faces[k])
  }

  /** The match vector of a photo: all false to start with, then or-ed with
      the comparison of each of the photo's faces in turn. */
  function MatchVector(queries: seq<FaceVector>, faces: seq<FaceVector>, matches: (FaceVector, FaceVector) -> bool): (m: seq<bool>)
    ensures |m| == |queries|
    ensures forall i :: 0 <= i < |m| ==> (m[i] <==> FaceMatches(queries[i], faces, matches))
    decreases |faces|
  {
    if |faces| == 0 then seq(|queries|, i => false)
    else
      var m := Or(MatchVector(queries, faces[..|faces| - 1], matches), Compare(queries, faces[|faces| - 1], matches));
      assert forall i :: 0 <= i < |m| ==> (m[i] <==> FaceMatches(queries[i], faces, matches)) by {
        forall i | 0 <= i < |m|
          ensures m[i] <==> FaceMatches(queries[i], faces, matches)
        {
          if FaceMatches(queries[i], faces, matches) {
            var k :| 0 <= k < |faces| && matches(queries[i], faces[k]);
            if k < |faces| - 1 {
              assert faces[..|faces| - 1][k] == faces[k];
            }
          }
          if FaceMatches(queries[i], faces[..|faces| - 1], matches) {
            var k :| 0 <= k < |faces| - 1 && matches(queries[i], faces[..|faces| - 1][k]);
            assert faces[k] == faces[..|faces| - 1][k];
          }
        }
      }
      m
  }

  /** Demand `d` is one of the queried demands and its query matched a face. */
  predicate Matched(ids: seq<DemandId>, queries: seq<FaceVector>, faces: seq<FaceVector>,
                    matches: (FaceVector, FaceVector) -> bool, d: DemandId)
    requires |ids| == |queries|
  {
    exists i :: 0 <= i < |ids| && ids[i] == d && FaceMatches(queries[i], faces, matches)
  }

  function PhotoNotFound(photo: PhotoId): string {
    "Photo not found : id = " + NatToString(photo)
  }

  /** Compares the faces of one photo with the queries and links the photo
      to every still-existing demand whose query matched some face. */
  function FindFaces(cfg: Config, s: Store, ids: seq<DemandId>, queries: seq<FaceVector>, photo: PhotoId,
                     matches: (FaceVector, FaceVector) -> bool): (r: Step)
    requires |ids| == |queries|
    ensures r.jobs == [] && r.mails == []
    ensures photo !in s.photos ==> r.store == s && r.outcome == Returned(Message(PhotoNotFound(photo)))
    ensures photo in s.photos ==> r.outcome == Returned(Message(Ok))
    ensures photo in s.photos && !cfg.withFaceRecognition ==> r.store == s
    ensures photo in s.photos && cfg.withFaceRecognition ==>
              && r.store.demands.Keys == s.demands.Keys
              && r.store.(demands := s.demands) == s
              && forall d :: d in s.demands ==>
                   r.store.demands[d] ==
                   if Matched(ids, queries, s.photos[photo].faceEncodings, matches, d)
                   then s.demands[d].(photos := s.demands[d].photos + {photo})
                   else s.demands[d]
  {
    if photo !in s.photos then Step(s, [], [], Returned(Message(PhotoNotFound(photo))))
    else if !cfg.withFaceRecognition then Step(s, [], [], Returned(Message(Ok)))
    else
      var faces := s.photos[photo].faceEncodings;
      var m := MatchVector(queries, faces, matches);
      var hit := set i | 0 <= i < |ids| && m[i] :: ids[i];
      assert forall d :: d in hit <==> Matched(ids, queries, faces, matches, d);
      var linked := map d | d in s.demands ::
        if d in hit then s.demands[d].(photos := s.demands[d].photos + {photo}) else s.demands[d];
      Step(s.(demands := linked), [], [], Returned(Message(Ok)))
  }

  // ---------------------------------------------------------------------------
  // task_search_ending

  /** The result mail of a processed demand: "no photo" exactly when no photo
      is linked to it. */
  function ResultMail(id: DemandId, d: Demand): (m: Mail)
    ensures m.demand == id && m.recipient == d.email
    ensures m.kind == NoPhotoFoundMail <==> d.photos == {}
    ensures m.kind == PhotosAvailableMail <==> d.photos != {}
  {
    Mail(id, d.email, if d.photos == {} then NoPhotoFoundMail else PhotosAvailableMail)
  }

  /** The listed ids that are still stored, in list order. */
  function Existing(s: Store, ids: seq<DemandId>): (e: seq<DemandId>)
    ensures |e| <= |ids|
    ensures forall d :: d in e <==> d in ids && d in s.demands
  {
    if |ids| == 0 then []
    else Existing(s, ids[..|ids| - 1]) + (if ids[|ids| - 1] in s.demands then [ids[|ids| - 1]] else [])
  }

  /** `t` and `mails` are what the ending job's loop leaves after the listed
      demands: each listed stored demand PROCESSED, every other row as it
      was, and one result mail per listed stored demand, in list order. */
  predicate Ended(s: Store, ids: seq<DemandId>, t: Store, mails: seq<Mail>) {
    EndedRows(s, ids, t) && EndedMails(s, ids, mails)
  }

  predicate EndedRows(s: Store, ids: seq<DemandId>, t: Store) {
    && t.demands.Keys == s.demands.Keys
    && t.(demands := s.demands) == s
    && (forall d :: d in s.demands ==>
          t.demands[d] == if d in ids then s.demands[d].(status := Processed) else s.demands[d])
  }

  predicate EndedMails(s: Store, ids: seq<DemandId>, mails: seq<Mail>) {
    && |mails| == |Existing(s, ids)|
    && (forall k :: 0 <= k < |mails| ==> mails[k] == ResultMail(Existing(s, ids)[k], s.demands[Existing(s, ids)[k]]))
  }

  /** The loop of the ending job over the listed demands. */
  function EndEach(s: Store, ids: seq<DemandId>): (r: (Store, seq<Mail>))
    ensures r.0.demands.Keys == s.demands.Keys
    ensures r.0.(demands := s.demands) == s
    ensures forall d :: d in s.demands ==>
              r.0.demands[d] == if d in ids then s.demands[d].(status := Processed) else s.demands[d]
    ensures |r.1| == |Existing(s, ids)|
    ensures forall k :: 0 <= k < |r.1| ==> r.1[k] == ResultMail(Existing(s, ids)[k], s.demands[Existing(s, ids)[k]])
    decreases |ids|
  {
    if |ids| == 0 then (s, [])
    else
      var id := ids[|ids| - 1];
      var (t, mails) := EndEach(s, ids[..|ids| - 1]);
      var r := if id in t.demands
               then (t.(demands := t.demands[id := t.demands[id].(status := Processed)]),
                     mails + [ResultMail(id, t.demands[id])])
               else (t, mails);
      EndOneMore(s, ids, t, mails, r.0, r.1);
      r
  }

  /** One more turn of the ending job's loop. */
  lemma EndOneMore(s: Store, ids: seq<DemandId>, t: Store, mails: seq<Mail>, t': Store, mails': seq<Mail>)
    requires |ids| > 0 && Ended(s, ids[..|ids| - 1], t, mails)
    requires var id := ids[|ids| - 1];
             (t', mails') == if id in t.demands
                             then (t.(demands := t.demands[id := t.demands[id].(status := Processed)]),
                                   mails + [ResultMail(id, t.demands[id])])
                             else (t, mails)
    ensures Ended(s, ids, t', mails')
  {
    var id := ids[|ids| - 1];
    EndRowsMore(s, ids, t, t');
    if id in t.demands {
      assert ResultMail(id, t.demands[id]) == ResultMail(id, s.demands[id]);
      EndMailsMore(s, ids, mails, mails');
    } else {
      EndMailsMore(s, ids, mails, mails');
    }
  }

  lemma EndRowsMore(s: Store, ids: seq<DemandId>, t: Store, t': Store)
    requires |ids| > 0 && EndedRows(s, ids[..|ids| - 1], t)
    requires var id := ids[|ids| - 1];
             t' == if id in t.demands then t.(demands := t.demands[id := t.demands[id].(status := Processed)]) else t
    ensures EndedRows(s, ids, t')
  {
    var prefix := ids[..|ids| - 1];
    var id := ids[|ids| - 1];
    assert forall d :: d in ids <==> d in prefix || d == id;
  }

  lemma EndMailsMore(s: Store, ids: seq<DemandId>, mails: seq<Mail>, mails': seq<Mail>)
    requires |ids| > 0 && EndedMails(s, ids[..|ids| - 1], mails)
    requires var id := ids[|ids| - 1];
             mails' == if id in s.demands then mails + [ResultMail(id, s.demands[id])] else mails
    ensures EndedMails(s, ids, mails')
  {
    var id := ids[|ids| - 1];
    assert Existing(s, ids) == Existing(s, ids[..|ids| - 1]) + (if id in s.demands then [id] else []);
  }

  /** The join callback of a search: every listed demand that still exists
      becomes PROCESSED and gets one result mail; the mails go out as one
      batch. */
  function SearchEnding(s: Store, ids: seq<DemandId>): (r: Step)
    ensures r.jobs == [] && r.outcome == Returned(Message(SearchEnded))
    ensures r.store.demands.Keys == s.demands.Keys
    ensures r.store.(demands := s.demands) == s
    ensures forall d :: d in s.demands ==>
              r.store.demands[d] == if d in ids then s.demands[d].(status := Processed) else s.demands[d]
    ensures |r.mails| == |Existing(s, ids)|
    ensures forall k :: 0 <= k < |r.mails| ==>
              && r.mails[k].demand == Existing(s, ids)[k]
              && r.mails[k].recipient == s.demands[r.mails[k].demand].email
              && (r.mails[k].kind == NoPhotoFoundMail <==> s.demands[r.mails[k].demand].photos == {})
              && (r.mails[k].kind == PhotosAvailableMail <==> s.demands[r.mails[k].demand].photos != {})
  {
    var (t, mails) := EndEach(s, ids);
    Step(t, [], mails, Returned(Message(SearchEnded)))
  }

  // ---------------------------------------------------------------------------
  // task_face_encoding

  /** One attempt of the per-file encode job. `encoded` is what the library
      finds on the image, or None when loading or encoding it fails. The new
      Photo row fails to insert when its directory no longer exists. Any
      failure asks for a retry while fewer than MaxRetries retries were made,
      and raises once they are used up. */
  function FaceEncodingTask(cfg: Config, s: Store, dir: DirId, path: string,
                            encoded: Option<seq<FaceVector>>, retries: nat): (r: Step)
    ensures r.jobs == [] && r.mails == []
    ensures r.outcome.Returned? <==> dir in s.dirs && (cfg.withFaceRecognition ==> encoded.Some?)
    ensures r.outcome.Returned? ==>
              && r.outcome == Returned(Message(Ok))
              && r.store.photos.Keys == s.photos.Keys + {s.nextPhotoId}
              && r.store.photos[s.nextPhotoId].directory == dir
              && r.store.photos[s.nextPhotoId].path == path
              && r.store.photos[s.nextPhotoId].faceEncodings == (if cfg.withFaceRecognition then encoded.value else [])
              && (forall p :: p in s.photos && p != s.nextPhotoId ==> r.store.photos[p] == s.photos[p])
              && r.store.nextPhotoId == s.nextPhotoId + 1
              && r.store.(photos := s.photos, nextPhotoId := s.nextPhotoId) == s
    ensures !r.outcome.Returned? ==> r.store == s
    ensures r.outcome.RetryScheduled? <==> !r.outcome.Returned? && retries < MaxRetries
    ensures r.outcome.RetryScheduled? ==> r.outcome.retries == retries + 1
    ensures r.outcome.Raised? ==> r.outcome.error == MaxRetriesExceeded
  {
    var faces := if cfg.withFaceRecognition then encoded else Some([]);
    if faces.Some? && dir in s.dirs then
      Step(s.(photos := s.photos[s.nextPhotoId := Photo(dir, path, faces.value)], nextPhotoId := s.nextPhotoId + 1),
           [], [], Returned(Message(Ok)))
    else if retries < MaxRetries then Step(s, [], [], RetryScheduled(retries + 1))
    else Step(s, [], [], Raised(MaxRetriesExceeded))
  }

  /** The attempts of one encode job as the queue runs them: `results[i]` is
      what the library gives on attempt i, and the chain goes on while the job
      asks for a retry. */
  function RetryChain(cfg: Config, s: Store, dir: DirId, path: string,
                      results: seq<Option<seq<FaceVector>>>, retries: nat): Step
    requires |results| > 0
    decreases |results|
  {
    var step := FaceEncodingTask(cfg, s, dir, path, results[0], retries);
    if step.outcome.RetryScheduled? && |results| > 1
    then RetryChain(cfg, step.store, dir, path, results[1..], step.outcome.retries)
    else step
  }

  /** When the library fails on the first `k` attempts and succeeds on the
      next one, within the retry bound, exactly one Photo row is created,
      holding the faces of the successful attempt. */
  lemma {:induction false} RetryCreatesPhotoOnce(cfg: Config, s: Store, dir: DirId, path: string,
                                                 results: seq<Option<seq<FaceVector>>>, retries: nat, k: nat)
    requires cfg.withFaceRecognition && dir in s.dirs
    requires k < |results| && retries + k <= MaxRetries
    requires forall i :: 0 <= i < k ==> results[i].None?
    requires results[k].Some?
    ensures RetryChain(cfg, s, dir, path, results, retries) ==
            Step(s.(photos := s.photos[s.nextPhotoId := Photo(dir, path, results[k].value)],
                    nextPhotoId := s.nextPhotoId + 1), [], [], Returned(Message(Ok)))
    decreases k
  {
    if k > 0 {
      RetryCreatesPhotoOnce(cfg, s, dir, path, results[1..], retries + 1, k - 1);
    }
  }

  /** When every attempt fails, the job raises after MaxRetries retries and
      no Photo row is created. */
  lemma {:induction false} RetryGivesUp(cfg: Config, s: Store, dir: DirId, path: string,
                                        results: seq<Option<seq<FaceVector>>>, retries: nat)
    requires cfg.withFaceRecognition
    requires retries <= MaxRetries && |results| > MaxRetries - retries
    requires forall i :: 0 <= i < |results| ==> results[i].None?
    ensures RetryChain(cfg, s, dir, path, results, retries) == Step(s, [], [], Raised(MaxRetriesExceeded))
    decreases |results|
  {
    if retries < MaxRetries {
      RetryGivesUp(cfg, s, dir, path, results[1..], retries + 1);
    }
  }

  // ---------------------------------------------------------------------------
  // task_indexing_directory

  /** One triple of `os.walk`: a directory, its sub-directories, its files. */
  datatype WalkEntry = WalkEntry(dirpath: string, dirnames: seq<string>, filenames: seq<string>)

  function FileTotal(walk: seq<WalkEntry>): nat {
    if |walk| == 0 then 0 else |walk[0].filenames| + FileTotal(walk[1..])
  }

  predicate InWalk(walk: seq<WalkEntry>, path: string, i: int, j: int) {
    0 <= i < |walk| && 0 <= j < |walk[i].filenames| && path == walk[i].dirpath + "/" + walk[i].filenames[j]
  }

  ghost predicate FromWalk(walk: seq<WalkEntry>, path: string) {
    exists i, j :: InWalk(walk, path, i, j)
  }

  /** The full path of every file the walk reports, in walk order. */
  function WalkPaths(walk: seq<WalkEntry>): (paths: seq<string>)
    ensures |paths| == FileTotal(walk)
    decreases |walk|
  {
    if |walk| == 0 then []
    else
      var e := walk[0];
      seq(|e.filenames|, j requires 0 <= j < |e.filenames| => e.dirpath + "/" + e.filenames[j])
      + WalkPaths(walk[1..])
  }

  /** Every path is `dirpath + "/" + filename` for a file of the walk, and
      every file of the walk has its path. */
  lemma {:induction false} WalkPathsAreTheFiles(walk: seq<WalkEntry>)
    ensures forall p :: p in WalkPaths(walk) ==> FromWalk(walk, p)
    ensures forall i, j :: 0 <= i < |walk| && 0 <= j < |walk[i].filenames| ==>
              walk[i].dirpath + "/" + walk[i].filenames[j] in WalkPaths(walk)
    decreases |walk|
  {
    if |walk| > 0 {
      var e := walk[0];
      var here := seq(|e.filenames|, j requires 0 <= j < |e.filenames| => e.dirpath + "/" + e.filenames[j]);
      var rest := WalkPaths(walk[1..]);
      var paths := WalkPaths(walk);
      assert paths == here + rest;
      WalkPathsAreTheFiles(walk[1..]);
      forall p | p in paths
        ensures FromWalk(walk, p)
      {
        var k :| 0 <= k < |paths| && paths[k] == p;
        if k < |here| {
          assert InWalk(walk, paths[k], 0, k);
        } else {
          assert paths[k] == rest[k - |here|];
          assert FromWalk(walk[1..], rest[k - |here|]);
          var i, j :| InWalk(walk[1..], rest[k - |here|], i, j);
          assert walk[1..][i] == walk[i + 1];
          assert InWalk(walk, paths[k], i + 1, j);
        }
      }
      forall i, j | 0 <= i < |walk| && 0 <= j < |walk[i].filenames|
        ensures walk[i].dirpath + "/" + walk[i].filenames[j] in paths
      {
        if i == 0 {
          assert paths[j] == here[j];
        } else {
          assert walk[1..][i - 1] == walk[i];
          assert walk[i].dirpath + "/" + walk[i].filenames[j] in rest;
        }
      }
    }
  }

  /** One encode job per path, in order. */
  function EncodeFileJobs(dir: DirId, paths: seq<string>): (jobs: seq<Job>)
    ensures |jobs| == |paths|
    ensures forall i :: 0 <= i < |jobs| ==> jobs[i] == EncodeFileJob(dir, paths[i])
  {
    seq(|paths|, i requires 0 <= i < |paths| => EncodeFileJob(dir, paths[i]))
  }

  /** Rebuilds a directory's index from scratch: deletes its Photo rows,
      dispatches one encode job per file the walk finds, records the job
      group, the expected count and the time, and returns the count. */
  function IndexingDirectory(s: Store, dir: DirId, walk: seq<WalkEntry>, now: Time, group: TaskId): (r: Step)
    ensures dir !in s.dirs ==> r == Step(s, [], [], Raised(DirectoryNotFound))
    ensures dir in s.dirs ==>
              var paths := WalkPaths(walk);
              && PhotosOf(r.store, dir) == {}
              && r.store.photos.Keys == s.photos.Keys - PhotosOf(s, dir)
              && (forall p :: p in r.store.photos ==> r.store.photos[p] == s.photos[p])
              && r.store.demands.Keys == s.demands.Keys
              && (forall d :: d in s.demands ==>
                    r.store.demands[d] == s.demands[d].(photos := s.demands[d].photos - PhotosOf(s, dir)))
              && r.store.dirs == s.dirs[dir := s.dirs[dir].(lastIndexingDate := Some(now),
                                                             totalPhotos := |paths|,
                                                             indexingTaskId := Some(group))]
              && r.store.uploads == s.uploads
              && r.store.nextPhotoId == s.nextPhotoId && r.store.nextDemandId == s.nextDemandId
              && r.jobs == EncodeFileJobs(dir, paths)
              && r.mails == []
              && r.outcome == Returned(FileCount(|paths|))
  {
    if dir !in s.dirs then Step(s, [], [], Raised(DirectoryNotFound))
    else
      var paths := WalkPaths(walk);
      var cleared := DeletePhotos(s, PhotosOf(s, dir));
      var d := s.dirs[dir].(lastIndexingDate := Some(now), totalPhotos := |paths|, indexingTaskId := Some(group));
      Step(cleared.(dirs := s.dirs[dir := d]), EncodeFileJobs(dir, paths), [], Returned(FileCount(|paths|)))
  }
}
