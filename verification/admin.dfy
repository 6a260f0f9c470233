/** The staff back office: the bulk actions on selected demands and
    directories, and what the change pages show as buttons. */
module Admin {
  import opened Models
  import opened Tasks
  import opened Views
  import opened Settings
  import Pipeline

  // ---------------------------------------------------------------------------
  // reset_demand_search

  /** Puts the selected demands back to WAITING_FOR_SEARCH and forgets their
      search job, in one bulk update that touches no other column. */
  function ResetDemandSearch(s: Store, selected: set<DemandId>): (r: Store)
    ensures r.demands.Keys == s.demands.Keys
    ensures forall d :: d in s.demands && d in selected ==>
              && r.demands[d].status == WaitingForSearch && r.demands[d].searchTaskId == None
              && r.demands[d].(status := s.demands[d].status, searchTaskId := s.demands[d].searchTaskId) == s.demands[d]
    ensures forall d :: d in s.demands && d !in selected ==> r.demands[d] == s.demands[d]
    ensures r.(demands := s.demands) == s
  {
    s.(demands := map d | d in s.demands ::
         if d in selected then s.demands[d].(status := WaitingForSearch, searchTaskId := None) else s.demands[d])
  }

  /** The selected demands of `dir` that hold a face. */
  function Requeued(s: Store, selected: set<DemandId>, dir: DirId): set<DemandId> {
    set d | d in s.demands && d in selected && s.demands[d].directory == dir && s.demands[d].faceEncoding.Some?
  }

  /** After the reset, the next search of a directory picks up every selected
      demand of it that holds a face, together with those already waiting. */
  lemma ResetRequeuesEncoded(s: Store, selected: set<DemandId>, dir: DirId)
    ensures WaitingIds(ResetDemandSearch(s, selected), dir) == WaitingIds(s, dir) + Requeued(s, selected, dir)
  {
    var r := ResetDemandSearch(s, selected);
    forall d ensures d in WaitingIds(r, dir) <==> d in WaitingIds(s, dir) + Requeued(s, selected, dir) {
      if d in s.demands {
        assert d in r.demands;
      }
    }
  }

  /** A selected demand without a face is marked WAITING_FOR_SEARCH by the
      reset, yet no search will ever select it: the state then no longer
      implies a stored face. */
  lemma ResetStrandsUnencoded(s: Store, selected: set<DemandId>, id: DemandId, dir: DirId)
    requires id in s.demands && id in selected && s.demands[id].faceEncoding.None?
    ensures var r := ResetDemandSearch(s, selected);
            && r.demands[id].status == WaitingForSearch
            && id !in WaitingIds(r, dir)
            && id !in SelectedIds(r, dir)
  {
  }

  /** Resetting twice is resetting once. */
  lemma ResetDemandSearchIdempotent(s: Store, selected: set<DemandId>)
    ensures ResetDemandSearch(ResetDemandSearch(s, selected), selected) == ResetDemandSearch(s, selected)
  {
    var once := ResetDemandSearch(s, selected);
    var twice := ResetDemandSearch(once, selected);
    assert twice.demands == once.demands;
  }

  // ---------------------------------------------------------------------------
  // reset_directory

  /** The Photo rows of the selected directories. */
  function PhotosOfAll(s: Store, selected: set<DirId>): set<PhotoId> {
    set p | p in s.photos && s.photos[p].directory in selected
  }

  /** Deletes every Photo row of the selected directories (and with them the
      demands' links to those photos), then clears their job group handle,
      expected count and indexing date. */
  function ResetDirectory(s: Store, selected: set<DirId>): (r: Store)
    ensures r.photos.Keys == set p | p in s.photos && s.photos[p].directory !in selected
    ensures forall p :: p in r.photos ==> r.photos[p] == s.photos[p]
    ensures r.demands.Keys == s.demands.Keys
    ensures forall d :: d in r.demands ==>
              r.demands[d] == s.demands[d].(photos := s.demands[d].photos - PhotosOfAll(s, selected))
    ensures r.dirs.Keys == s.dirs.Keys
    ensures forall dir :: dir in s.dirs && dir in selected ==>
              r.dirs[dir] == s.dirs[dir].(indexingTaskId := None, totalPhotos := 0, lastIndexingDate := None)
    ensures forall dir :: dir in s.dirs && dir !in selected ==> r.dirs[dir] == s.dirs[dir]
    ensures r.uploads == s.uploads && r.nextDemandId == s.nextDemandId && r.nextPhotoId == s.nextPhotoId
  {
    var t := DeletePhotos(s, PhotosOfAll(s, selected));
    t.(dirs := map dir | dir in t.dirs ::
         if dir in selected then t.dirs[dir].(indexingTaskId := None, totalPhotos := 0, lastIndexingDate := None)
         else t.dirs[dir])
  }

  /** A reset directory is NOT_INDEXED with no Photo row, whatever its job
      group reports; the other directories keep their rows. */
  lemma ResetDirectoryClears(s: Store, selected: set<DirId>, dir: DirId, backend: GroupBackend)
    requires dir in s.dirs
    ensures var r := ResetDirectory(s, selected);
            && (dir in selected ==> IndexedPhotos(r, dir) == 0 && IndexingStatus(r, dir, backend) == NotIndexed)
            && (dir !in selected ==> PhotosOf(r, dir) == PhotosOf(s, dir))
  {
    var r := ResetDirectory(s, selected);
    if dir in selected {
      assert PhotosOf(r, dir) == {};
    }
  }

  /** Resetting keeps the store well formed. */
  lemma ResetDirectoryPreservesWf(s: Store, selected: set<DirId>)
    requires Wf(s)
    ensures Wf(ResetDirectory(s, selected))
  {
  }

  // ---------------------------------------------------------------------------
  // rerunEncoding_button

  datatype RerunButton = NoButton | NoPhotoToEncode | PhotoAlreadyProcessed | ShowRerunButton

  /** The re-run control of a demand's change page: nothing for a demand not
      yet saved (`id` None), a refusal without an image or once the encoding
      has moved past NOT_PROCESSED and NO_FACE_FOUND, the button otherwise. */
  function RerunEncodingButton(id: Option<DemandId>, d: Demand): (r: RerunButton)
    ensures r == ShowRerunButton <==>
              id.Some? && d.photo.Some? && (d.status == NotProcessed || d.status == Models.NoFaceFound)
    ensures r == NoButton <==> id.None?
    ensures r == NoPhotoToEncode <==> id.Some? && d.photo.None?
  {
    if id.None? then NoButton
    else if d.photo.None? then NoPhotoToEncode
    else if d.status != NotProcessed && d.status != Models.NoFaceFound then PhotoAlreadyProcessed
    else ShowRerunButton
  }

  /** The same decision with its image check as admin.py writes it: the
      image attribute of a loaded row is never the None object, so the "no
      photo" refusal never shows. */
  function RerunEncodingButtonAsWritten(id: Option<DemandId>, d: Demand): (r: RerunButton)
    ensures r != NoPhotoToEncode
    ensures r == ShowRerunButton <==> id.Some? && (d.status == NotProcessed || d.status == Models.NoFaceFound)
  {
    if id.None? then NoButton
    else if d.status != NotProcessed && d.status != Models.NoFaceFound then PhotoAlreadyProcessed
    else ShowRerunButton
  }

  /** A NOT_PROCESSED demand whose image was cleared on its change page gets
      the re-run button as written. Its encode job as written then leaves the
      demand in FACE_ENCODING: with recognition on it fails reading the
      missing image, with it off it returns with nothing encoded. The
      intended decision says there is no photo. */
  lemma RerunButtonAsWrittenOffersWithoutPhoto(cfg: Config, s: Store, id: DemandId, faces: seq<FaceVector>)
    requires id in s.demands && s.demands[id].photo.None? && s.demands[id].status == NotProcessed
    ensures RerunEncodingButtonAsWritten(Some(id), s.demands[id]) == ShowRerunButton
    ensures var e := EncodeDemandPhotoAsWritten(cfg, s, id, faces);
            && id in e.store.demands
            && e.store.demands[id].status == FaceEncoding
            && e.store.demands[id].faceEncoding == s.demands[id].faceEncoding
            && (cfg.withFaceRecognition ==> e.outcome == Raised(NoFileAssociated))
            && (!cfg.withFaceRecognition ==> e.outcome == Returned(NoValue))
    ensures RerunEncodingButton(Some(id), s.demands[id]) == NoPhotoToEncode
  {
  }

  /** Whenever the intended control shows the button for a stored demand,
      the intended re-run view dispatches exactly that demand's encode job. */
  lemma RerunButtonLeadsToEncoding(s: Store, id: DemandId)
    requires id in s.demands && RerunEncodingButton(Some(id), s.demands[id]) == ShowRerunButton
    ensures RerunFaceEncoding(s, id).jobs == [EncodeDemandJob(id)]
  {
  }

  /** The button is never offered for a demand already encoded, waiting, being
      searched or done. */
  lemma RerunButtonHiddenOncePastEncoding(id: DemandId, d: Demand)
    requires d.status in {FaceEncoding, WaitingForSearch, Processing, Processed}
    ensures RerunEncodingButton(Some(id), d) != ShowRerunButton
  {
  }

  // ---------------------------------------------------------------------------
  // force_search_button

  datatype SearchButton = NoSearchButton | ForceSearchButton(alreadySearching: bool)

  /** The demands of `dir` a search is processing. */
  function Searching(s: Store, dir: DirId): set<DemandId> {
    set d | d in s.demands && s.demands[d].directory == dir && s.demands[d].status == Processing
  }

  /** The force-search control of a directory's change page: nothing for a
      directory not yet saved, otherwise the button, flagged when some demand
      of the directory is being searched. */
  function ForceSearchButtonFor(s: Store, dir: Option<DirId>): (r: SearchButton)
    ensures r == NoSearchButton <==> dir.None?
    ensures dir.Some? ==> r == ForceSearchButton(Searching(s, dir.value) != {})
  {
    if dir.None? then NoSearchButton
    else ForceSearchButton(Searching(s, dir.value) != {})
  }

  /** The flag is raised exactly when some demand of the directory is
      PROCESSING. */
  lemma AlreadySearchingIffProcessing(s: Store, dir: DirId)
    ensures ForceSearchButtonFor(s, Some(dir)).alreadySearching <==>
              exists d :: d in s.demands && s.demands[d].directory == dir && s.demands[d].status == Processing
  {
    if Searching(s, dir) != {} {
      var d :| d in Searching(s, dir);
    }
    if exists d :: d in s.demands && s.demands[d].directory == dir && s.demands[d].status == Processing {
      var d :| d in s.demands && s.demands[d].directory == dir && s.demands[d].status == Processing;
      assert d in Searching(s, dir);
    }
  }

  /** Right after a search of a directory is dispatched, its button shows the
      search as under way. */
  lemma DispatchedSearchShows(s: Store, dir: DirId)
    requires WaitingIds(s, dir) != {}
    ensures ForceSearchButtonFor(SearchPhotos(s, dir).store, Some(dir)).alreadySearching
  {
    var d :| d in WaitingIds(s, dir);
    var t := SearchPhotos(s, dir).store;
    assert t == MarkProcessing(s, WaitingIds(s, dir));
    assert t.demands[d] == s.demands[d].(status := Processing);
    assert d in Searching(t, dir);
  }

  /** Once every job of a search round has run, the button no longer shows a
      search under way, unless some demand was already PROCESSING before. */
  lemma FinishedRoundClears(cfg: Config, s: Store, dir: DirId, matches: (FaceVector, FaceVector) -> bool)
    requires cfg.withFaceRecognition && WaitingIds(s, dir) != {}
    requires Searching(s, dir) == {}
    ensures !ForceSearchButtonFor(Pipeline.RoundResult(cfg, s, dir, matches).store, Some(dir)).alreadySearching
  {
    Pipeline.SearchRound(cfg, s, dir, matches);
    RoundLeavesNoneSearching(s, dir, matches, Pipeline.RoundResult(cfg, s, dir, matches).store);
  }

  /** The store a search round leaves has no demand of the directory
      PROCESSING when there was none before. */
  lemma RoundLeavesNoneSearching(s: Store, dir: DirId, matches: (FaceVector, FaceVector) -> bool, t: Store)
    requires Pipeline.StoreAfterRound(s, dir, matches, t) && Searching(s, dir) == {}
    ensures Searching(t, dir) == {}
  {
    forall d | d in t.demands && t.demands[d].directory == dir
      ensures t.demands[d].status != Processing
    {
      if d !in WaitingIds(s, dir) {
        assert d !in Searching(s, dir);
      }
    }
  }
}
