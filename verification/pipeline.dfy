/** Whole rounds of the pipeline, each job run to completion in dispatch
    order: a search round (dispatch, every compare job, the join callback)
    and an indexing round (rebuild, then every encode job). */
module Pipeline {
  import opened Settings
  import opened Models
  import opened Tasks

  // ---------------------------------------------------------------------------
  // Search round

  predicate AllCompareJobs(jobs: seq<Job>) {
    forall j :: 0 <= j < |jobs| ==> jobs[j].CompareJob? && |jobs[j].demandIds| == |jobs[j].queries|
  }

  /** Runs the compare jobs one after the other. */
  function RunCompares(cfg: Config, s: Store, jobs: seq<Job>, matches: (FaceVector, FaceVector) -> bool): Store
    requires AllCompareJobs(jobs)
    decreases |jobs|
  {
    if |jobs| == 0 then s
    else
      var j := jobs[|jobs| - 1];
      FindFaces(cfg, RunCompares(cfg, s, jobs[..|jobs| - 1], matches), j.demandIds, j.queries, j.photo, matches).store
  }

  /** The photos the jobs link to demand `d`. */
  function LinkedBy(photos: map<PhotoId, Photo>, jobs: seq<Job>, ids: seq<DemandId>, queries: seq<FaceVector>,
                    matches: (FaceVector, FaceVector) -> bool, d: DemandId): set<PhotoId>
    requires |ids| == |queries|
    requires forall j :: 0 <= j < |jobs| ==> jobs[j].CompareJob? && jobs[j].photo in photos
  {
    set j | 0 <= j < |jobs| && Matched(ids, queries, photos[jobs[j].photo].faceEncodings, matches, d) :: jobs[j].photo
  }

  /** Appending one compare job adds its photo to the links of `d` exactly
      when it matches `d`. */
  lemma LinkedBySnoc(s: Store, jobs: seq<Job>, ids: seq<DemandId>, queries: seq<FaceVector>,
                     matches: (FaceVector, FaceVector) -> bool, d: DemandId)
    requires |ids| == |queries| && |jobs| > 0
    requires forall j :: 0 <= j < |jobs| ==> jobs[j].CompareJob? && jobs[j].photo in s.photos
    ensures var last := jobs[|jobs| - 1];
            LinkedBy(s.photos, jobs, ids, queries, matches, d) ==
            LinkedBy(s.photos, jobs[..|jobs| - 1], ids, queries, matches, d) +
            (if Matched(ids, queries, s.photos[last.photo].faceEncodings, matches, d) then {last.photo} else {})
  {
    var prefix := jobs[..|jobs| - 1];
    var last := jobs[|jobs| - 1];
    var hit := Matched(ids, queries, s.photos[last.photo].faceEncodings, matches, d);
    var before := LinkedBy(s.photos, prefix, ids, queries, matches, d);
    var after := LinkedBy(s.photos, jobs, ids, queries, matches, d);
    forall p ensures p in after <==> p in before + (if hit then {last.photo} else {}) {
      if p in after {
        var j :| 0 <= j < |jobs| && Matched(ids, queries, s.photos[jobs[j].photo].faceEncodings, matches, d)
                 && jobs[j].photo == p;
        if j < |jobs| - 1 {
          assert prefix[j] == jobs[j];
        }
      }
      if p in before {
        var j :| 0 <= j < |prefix| && Matched(ids, queries, s.photos[prefix[j].photo].faceEncodings, matches, d)
                 && prefix[j].photo == p;
        assert jobs[j] == prefix[j];
      }
    }
  }

  /** Running compare jobs that share one query links to each demand exactly
      the photos whose faces matched its query, and changes nothing else. */
  lemma {:induction false} ComparesLinkMatches(cfg: Config, s: Store, jobs: seq<Job>, ids: seq<DemandId>,
                                               queries: seq<FaceVector>, matches: (FaceVector, FaceVector) -> bool)
    requires cfg.withFaceRecognition && |ids| == |queries|
    requires forall j :: 0 <= j < |jobs| ==>
               jobs[j].CompareJob? && jobs[j].demandIds == ids && jobs[j].queries == queries && jobs[j].photo in s.photos
    ensures var t := RunCompares(cfg, s, jobs, matches);
            && t.demands.Keys == s.demands.Keys
            && t.(demands := s.demands) == s
            && forall d :: d in s.demands ==>
                 t.demands[d] == s.demands[d].(photos := s.demands[d].photos + LinkedBy(s.photos, jobs, ids, queries, matches, d))
    decreases |jobs|
  {
    var t := RunCompares(cfg, s, jobs, matches);
    if |jobs| == 0 {
      forall d | d in s.demands
        ensures t.demands[d] == s.demands[d].(photos := s.demands[d].photos + LinkedBy(s.photos, jobs, ids, queries, matches, d))
      {
        assert LinkedBy(s.photos, jobs, ids, queries, matches, d) == {};
        assert s.demands[d].(photos := s.demands[d].photos) == s.demands[d];
      }
    } else {
      var prefix := jobs[..|jobs| - 1];
      var last := jobs[|jobs| - 1];
      ComparesLinkMatches(cfg, s, prefix, ids, queries, matches);
      var t0 := RunCompares(cfg, s, prefix, matches);
      assert t == FindFaces(cfg, t0, ids, queries, last.photo, matches).store;
      assert t0.photos == s.photos;
      forall d | d in s.demands
        ensures t.demands[d] == s.demands[d].(photos := s.demands[d].photos + LinkedBy(s.photos, jobs, ids, queries, matches, d))
      {
        LinkedBySnoc(s, jobs, ids, queries, matches, d);
        OneCompareLinks(cfg, s, t0, t, ids, queries, last.photo, matches, d,
                        LinkedBy(s.photos, prefix, ids, queries, matches, d),
                        LinkedBy(s.photos, jobs, ids, queries, matches, d));
      }
    }
  }

  /** One more compare job adds its photo to the links of `d` exactly when it
      matches `d`. */
  lemma OneCompareLinks(cfg: Config, s: Store, t0: Store, t: Store, ids: seq<DemandId>, queries: seq<FaceVector>,
                        photo: PhotoId, matches: (FaceVector, FaceVector) -> bool, d: DemandId,
                        before: set<PhotoId>, after: set<PhotoId>)
    requires cfg.withFaceRecognition && |ids| == |queries|
    requires photo in s.photos && t0.photos == s.photos && t0.demands.Keys == s.demands.Keys && d in s.demands
    requires t0.demands[d] == s.demands[d].(photos := s.demands[d].photos + before)
    requires t == FindFaces(cfg, t0, ids, queries, photo, matches).store
    requires after == before + (if Matched(ids, queries, s.photos[photo].faceEncodings, matches, d) then {photo} else {})
    ensures t.demands[d] == s.demands[d].(photos := s.demands[d].photos + after)
  {
  }

  /** The photos of `dir` on which some face matches `query`. */
  function FoundFor(s: Store, dir: DirId, query: FaceVector, matches: (FaceVector, FaceVector) -> bool): set<PhotoId> {
    set p | p in PhotosOf(s, dir) && FaceMatches(query, s.photos[p].faceEncodings, matches)
  }

  /** Over the compare jobs of a search, a selected demand is linked to the
      photos its face matches, and any other demand to none. */
  lemma SearchLinks(s: Store, dir: DirId, compares: seq<Job>, ids: seq<DemandId>, queries: seq<FaceVector>,
                    matches: (FaceVector, FaceVector) -> bool, d: DemandId)
    requires QueriesOf(s, ids, queries) && Distinct(ids)
    requires CompareJobsFor(compares, ids, queries, PhotosOf(s, dir))
    ensures forall j :: 0 <= j < |compares| ==> compares[j].photo in s.photos
    ensures d in ids ==>
              LinkedBy(s.photos, compares, ids, queries, matches, d) == FoundFor(s, dir, s.demands[d].faceEncoding.value, matches)
    ensures d !in ids ==> LinkedBy(s.photos, compares, ids, queries, matches, d) == {}
  {
    var linked := LinkedBy(s.photos, compares, ids, queries, matches, d);
    if d in ids {
      var i :| 0 <= i < |ids| && ids[i] == d;
      var q := s.demands[d].faceEncoding.value;
      assert queries[i] == q;
      forall p ensures p in linked <==> p in FoundFor(s, dir, q, matches) {
        if p in linked {
          var j :| 0 <= j < |compares| && compares[j].photo == p
                   && Matched(ids, queries, s.photos[p].faceEncodings, matches, d);
          var i' :| 0 <= i' < |ids| && ids[i'] == d && FaceMatches(queries[i'], s.photos[p].faceEncodings, matches);
          assert i' == i;
        }
        if p in FoundFor(s, dir, q, matches) {
          var j :| 0 <= j < |compares| && compares[j].CompareJob? && compares[j].photo == p;
          assert Matched(ids, queries, s.photos[p].faceEncodings, matches, d);
        }
      }
    } else {
      assert forall j :: 0 <= j < |compares| ==> !Matched(ids, queries, s.photos[compares[j].photo].faceEncodings, matches, d);
      assert linked == {};
    }
  }

  /** The photos a search links to demand `d` of `s`: those of `dir` its face
      matches when it is selected, none otherwise. */
  function SearchResult(s: Store, dir: DirId, matches: (FaceVector, FaceVector) -> bool, d: DemandId): set<PhotoId>
    requires d in s.demands
  {
    if d in WaitingIds(s, dir) then FoundFor(s, dir, s.demands[d].faceEncoding.value, matches) else {}
  }

  /** Running the compare jobs of a search over the store the dispatch left:
      the selected demands are linked to the photos their face matches, the
      others keep their links. */
  lemma {:induction false} CompareRound(cfg: Config, s: Store, t: Store, dir: DirId, ids: seq<DemandId>,
                                        queries: seq<FaceVector>, compares: seq<Job>,
                                        matches: (FaceVector, FaceVector) -> bool)
    requires cfg.withFaceRecognition
    requires QueriesOf(s, ids, queries) && Distinct(ids)
    requires forall d :: d in ids <==> d in WaitingIds(s, dir)
    requires CompareJobsFor(compares, ids, queries, PhotosOf(s, dir))
    requires t == MarkProcessing(s, WaitingIds(s, dir))
    ensures AllCompareJobs(compares)
    ensures var s2 := RunCompares(cfg, t, compares, matches);
            StoreAfterCompares(s, dir, matches, s2)
  {
    assert t.photos == s.photos;
    SearchLinks(s, dir, compares, ids, queries, matches, 0);
    ComparesLinkMatches(cfg, t, compares, ids, queries, matches);
    var s2 := RunCompares(cfg, t, compares, matches);
    forall d | d in s.demands
      ensures s2.demands[d] ==
              if d in WaitingIds(s, dir)
              then s.demands[d].(status := Processing, photos := s.demands[d].photos + SearchResult(s, dir, matches, d))
              else s.demands[d]
    {
      SearchLinks(s, dir, compares, ids, queries, matches, d);
      RoundLinksAt(s, t, s2, dir, matches, d, LinkedBy(s.photos, compares, ids, queries, matches, d));
    }
  }

  /** The store after the compare jobs, at one demand `d`, given the photos
      they linked to it. */
  lemma RoundLinksAt(s: Store, t: Store, s2: Store, dir: DirId, matches: (FaceVector, FaceVector) -> bool,
                     d: DemandId, linked: set<PhotoId>)
    requires d in s.demands && d in t.demands && d in s2.demands
    requires t.demands[d] == if d in WaitingIds(s, dir) then s.demands[d].(status := Processing) else s.demands[d]
    requires s2.demands[d] == t.demands[d].(photos := t.demands[d].photos + linked)
    requires d in WaitingIds(s, dir) ==> linked == FoundFor(s, dir, s.demands[d].faceEncoding.value, matches)
    requires d !in WaitingIds(s, dir) ==> linked == {}
    ensures s2.demands[d] ==
            if d in WaitingIds(s, dir)
            then s.demands[d].(status := Processing, photos := s.demands[d].photos + SearchResult(s, dir, matches, d))
            else s.demands[d]
  {
    if d !in WaitingIds(s, dir) {
      assert s.demands[d].(photos := s.demands[d].photos) == s.demands[d];
    }
  }

  /** Dispatching a search and running all its compare jobs: the selected
      demands are PROCESSING and linked to the photos their face matches. */
  lemma ComparePhase(cfg: Config, s: Store, dir: DirId, matches: (FaceVector, FaceVector) -> bool)
    requires cfg.withFaceRecognition && WaitingIds(s, dir) != {}
    ensures var r1 := SearchPhotos(s, dir);
            var compares := r1.jobs[..|r1.jobs| - 1];
            && r1.jobs[|r1.jobs| - 1] == EndingJob(SelectedIds(s, dir))
            && AllCompareJobs(compares)
            && StoreAfterCompares(s, dir, matches, RunCompares(cfg, r1.store, compares, matches))
  {
    var ids := SelectedIds(s, dir);
    var r1 := SearchPhotos(s, dir);
    CompareRound(cfg, s, r1.store, dir, ids, QueryVectors(s, ids), r1.jobs[..|r1.jobs| - 1], matches);
  }

  /** What a search round leaves in the store: the waiting demands of `dir`
      are PROCESSED with the photos their face matched added to their links;
      nothing else changes. */
  predicate StoreAfterRound(s: Store, dir: DirId, matches: (FaceVector, FaceVector) -> bool, t: Store) {
    && t.demands.Keys == s.demands.Keys
    && (forall d :: d in WaitingIds(s, dir) ==>
          t.demands[d] ==
          s.demands[d].(status := Processed,
                        photos := s.demands[d].photos + FoundFor(s, dir, s.demands[d].faceEncoding.value, matches)))
    && (forall d :: d in s.demands && d !in WaitingIds(s, dir) ==> t.demands[d] == s.demands[d])
    && t.(demands := s.demands) == s
  }

  /** The mails of a search round: one per waiting demand of `dir`, of the
      "no photo" kind exactly when that demand ends with no linked photo. */
  predicate MailsAfterRound(s: Store, dir: DirId, t: Store, mails: seq<Mail>)
    requires t.demands.Keys == s.demands.Keys
  {
    && |mails| == |WaitingIds(s, dir)|
    && (forall k :: 0 <= k < |mails| ==>
          && mails[k].demand in WaitingIds(s, dir)
          && (mails[k].kind == NoPhotoFoundMail <==> t.demands[mails[k].demand].photos == {}))
    && (forall d :: d in WaitingIds(s, dir) ==> exists k :: 0 <= k < |mails| && mails[k].demand == d)
  }

  /** The store after the compare jobs of a search of `dir`. */
  predicate StoreAfterCompares(s: Store, dir: DirId, matches: (FaceVector, FaceVector) -> bool, s2: Store) {
    && s2.demands.Keys == s.demands.Keys && s2.(demands := s.demands) == s
    && forall d :: d in s.demands ==>
         s2.demands[d] ==
         if d in WaitingIds(s, dir)
         then s.demands[d].(status := Processing, photos := s.demands[d].photos + SearchResult(s, dir, matches, d))
         else s.demands[d]
  }

  /** The join callback after the compare jobs leaves the selected demands
      PROCESSED with their new links. */
  lemma EndRoundStore(s: Store, s2: Store, dir: DirId, ids: seq<DemandId>, matches: (FaceVector, FaceVector) -> bool)
    requires forall d :: d in ids <==> d in WaitingIds(s, dir)
    requires StoreAfterCompares(s, dir, matches, s2)
    ensures StoreAfterRound(s, dir, matches, SearchEnding(s2, ids).store)
  {
  }

  /** The join callback after the compare jobs sends each selected demand one
      result mail whose kind says whether it has a linked photo. */
  lemma EndRoundMails(s: Store, s2: Store, dir: DirId, ids: seq<DemandId>, matches: (FaceVector, FaceVector) -> bool)
    requires forall d :: d in ids <==> d in WaitingIds(s, dir)
    requires |ids| == |WaitingIds(s, dir)|
    requires StoreAfterCompares(s, dir, matches, s2)
    ensures var r3 := SearchEnding(s2, ids);
            r3.store.demands.Keys == s.demands.Keys && MailsAfterRound(s, dir, r3.store, r3.mails)
  {
    var r3 := SearchEnding(s2, ids);
    forall i | 0 <= i < |ids| ensures ids[i] in s2.demands {
      assert ids[i] in WaitingIds(s, dir);
    }
    ExistingOfStored(s2, ids);
    forall k | 0 <= k < |r3.mails|
      ensures r3.mails[k].demand in WaitingIds(s, dir)
      ensures r3.mails[k].kind == NoPhotoFoundMail <==> r3.store.demands[r3.mails[k].demand].photos == {}
    {
      var d := r3.mails[k].demand;
      assert d == ids[k];
      assert r3.store.demands[d].photos == s2.demands[d].photos;
    }
    forall d | d in WaitingIds(s, dir)
      ensures exists k :: 0 <= k < |r3.mails| && r3.mails[k].demand == d
    {
      var i :| 0 <= i < |ids| && ids[i] == d;
      assert r3.mails[i].demand == d;
    }
  }

  /** A full search round of `dir`, with every job run to completion: every
      demand that was waiting ends PROCESSED with exactly the photos of the
      directory on which its face matched added to its links, and gets one
      result mail, of the "no photo" kind exactly when it ends with no linked
      photo. Nothing else changes. */
  lemma SearchRound(cfg: Config, s: Store, dir: DirId, matches: (FaceVector, FaceVector) -> bool)
    requires cfg.withFaceRecognition && WaitingIds(s, dir) != {}
    ensures var r3 := RoundResult(cfg, s, dir, matches);
            && StoreAfterRound(s, dir, matches, r3.store)
            && MailsAfterRound(s, dir, r3.store, r3.mails)
  {
    ComparePhase(cfg, s, dir, matches);
    var r1 := SearchPhotos(s, dir);
    var s2 := RunCompares(cfg, r1.store, r1.jobs[..|r1.jobs| - 1], matches);
    EndRoundStore(s, s2, dir, SelectedIds(s, dir), matches);
    EndRoundMails(s, s2, dir, SelectedIds(s, dir), matches);
  }

  /** The last step of a search round of `dir`: the search job, then each of
      the compare jobs it dispatches in order, then its ending job. */
  function RoundResult(cfg: Config, s: Store, dir: DirId, matches: (FaceVector, FaceVector) -> bool): Step
    requires cfg.withFaceRecognition && WaitingIds(s, dir) != {}
  {
    ComparePhase(cfg, s, dir, matches);
    var r1 := SearchPhotos(s, dir);
    SearchEnding(RunCompares(cfg, r1.store, r1.jobs[..|r1.jobs| - 1], matches), r1.jobs[|r1.jobs| - 1].demandIds)
  }

  /** When every listed id is stored, the ending job handles all of them. */
  lemma {:induction false} ExistingOfStored(s: Store, ids: seq<DemandId>)
    requires forall i :: 0 <= i < |ids| ==> ids[i] in s.demands
    ensures Existing(s, ids) == ids
    decreases |ids|
  {
    if |ids| > 0 {
      ExistingOfStored(s, ids[..|ids| - 1]);
      assert ids[..|ids| - 1] + [ids[|ids| - 1]] == ids;
    }
  }

  // ---------------------------------------------------------------------------
  // Indexing round

  predicate AllEncodeFileJobs(jobs: seq<Job>, dir: DirId) {
    forall j :: 0 <= j < |jobs| ==> jobs[j].EncodeFileJob? && jobs[j].dir == dir
  }

  predicate KeysBelowCounter(s: Store) {
    forall p :: p in s.photos ==> p < s.nextPhotoId
  }

  /** Runs the encode jobs one after the other, each succeeding on its first
      attempt with the faces `encodings` gives for it. */
  function RunEncodeFiles(cfg: Config, s: Store, jobs: seq<Job>, encodings: seq<seq<FaceVector>>): Store
    requires |encodings| == |jobs|
    requires forall j :: 0 <= j < |jobs| ==> jobs[j].EncodeFileJob?
    decreases |jobs|
  {
    if |jobs| == 0 then s
    else
      var n := |jobs| - 1;
      FaceEncodingTask(cfg, RunEncodeFiles(cfg, s, jobs[..n], encodings[..n]), jobs[n].dir, jobs[n].path,
                       Some(encodings[n]), 0).store
  }

  /** Every successful encode job of `dir` adds one Photo row to `dir`. */
  lemma {:induction false} EncodeFilesCount(cfg: Config, s: Store, dir: DirId, jobs: seq<Job>,
                                            encodings: seq<seq<FaceVector>>)
    requires dir in s.dirs && KeysBelowCounter(s)
    requires |encodings| == |jobs| && AllEncodeFileJobs(jobs, dir)
    ensures var t := RunEncodeFiles(cfg, s, jobs, encodings);
            && IndexedPhotos(t, dir) == IndexedPhotos(s, dir) + |jobs|
            && t.dirs == s.dirs
            && KeysBelowCounter(t)
    decreases |jobs|
  {
    if |jobs| > 0 {
      var n := |jobs| - 1;
      assert AllEncodeFileJobs(jobs[..n], dir);
      EncodeFilesCount(cfg, s, dir, jobs[..n], encodings[..n]);
      var t0 := RunEncodeFiles(cfg, s, jobs[..n], encodings[..n]);
      var step := FaceEncodingTask(cfg, t0, dir, jobs[n].path, Some(encodings[n]), 0);
      assert RunEncodeFiles(cfg, s, jobs, encodings) == step.store;
      assert step.outcome.Returned?;
      OnePhotoMore(t0, step.store, dir);
    }
  }

  /** A store that gained one Photo row of `dir` under the next key has one
      more row of `dir`. */
  lemma OnePhotoMore(t0: Store, t: Store, dir: DirId)
    requires KeysBelowCounter(t0)
    requires t.photos.Keys == t0.photos.Keys + {t0.nextPhotoId}
    requires forall p :: p in t0.photos && p != t0.nextPhotoId ==> t.photos[p] == t0.photos[p]
    requires t.photos[t0.nextPhotoId].directory == dir
    ensures PhotosOf(t, dir) == PhotosOf(t0, dir) + {t0.nextPhotoId}
    ensures IndexedPhotos(t, dir) == IndexedPhotos(t0, dir) + 1
  {
    assert PhotosOf(t, dir) == PhotosOf(t0, dir) + {t0.nextPhotoId};
    assert t0.nextPhotoId !in PhotosOf(t0, dir);
  }

  /** Re-indexing a directory and then running every encode job it
      dispatches to success leaves exactly as many Photo rows as files were
      found, whatever rows existed before; the directory is then INDEXED, or
      NOT_INDEXED when no file was found, whatever its job group reports. */
  lemma ReindexCompletes(cfg: Config, s: Store, dir: DirId, walk: seq<WalkEntry>, now: Time, group: TaskId,
                         encodings: seq<seq<FaceVector>>, backend: GroupBackend)
    requires dir in s.dirs && KeysBelowCounter(s)
    requires |encodings| == FileTotal(walk)
    ensures var r := IndexingDirectory(s, dir, walk, now, group);
            var t := RunEncodeFiles(cfg, r.store, r.jobs, encodings);
            && dir in t.dirs
            && IndexedPhotos(t, dir) == t.dirs[dir].totalPhotos == FileTotal(walk)
            && (FileTotal(walk) > 0 ==> IndexingStatus(t, dir, backend) == Indexed)
            && (FileTotal(walk) == 0 ==> IndexingStatus(t, dir, backend) == NotIndexed)
  {
    var r := IndexingDirectory(s, dir, walk, now, group);
    assert IndexedPhotos(r.store, dir) == 0;
    EncodeFilesCount(cfg, r.store, dir, r.jobs, encodings);
  }
}
