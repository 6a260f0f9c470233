/** Properties of single job steps: how encoding a demand moves the batching
    count, idempotence of the compare and ending jobs under redelivery, and
    preservation of the store's referential integrity. */
module TaskProperties {
  import opened Settings
  import opened Models
  import opened Tasks

  // ---------------------------------------------------------------------------
  // Batching

  /** A successful encode adds exactly the encoded demand to its directory's
      waiting set and leaves every other directory's waiting set alone. */
  lemma EncodeSuccessJoinsWaiting(cfg: Config, s: Store, id: DemandId, faces: seq<FaceVector>, dir: DirId)
    requires cfg.withFaceRecognition && id in s.demands && s.demands[id].photo.Some? && faces != []
    ensures var r := EncodeDemandPhoto(cfg, s, id, faces);
            WaitingIds(r.store, dir) ==
            if dir == s.demands[id].directory then WaitingIds(s, dir) + {id} else WaitingIds(s, dir) - {id}
  {
    var r := EncodeDemandPhoto(cfg, s, id, faces);
    forall d ensures d in WaitingIds(r.store, dir) <==>
                     d in (if dir == s.demands[id].directory then WaitingIds(s, dir) + {id} else WaitingIds(s, dir) - {id})
    {
      if d != id && d in s.demands {
        assert r.store.demands[d] == s.demands[d];
      }
    }
  }

  /** The encode that lifts the number of waiting demands of a directory above
      FACE_SEARCHING_BATCH_SIZE is the one that dispatches its search: for a
      demand that was not already waiting, the search fires exactly when at
      least FACE_SEARCHING_BATCH_SIZE others were waiting before. */
  lemma {:induction false} EncodeTriggersSearch(cfg: Config, s: Store, id: DemandId, faces: seq<FaceVector>)
    requires cfg.withFaceRecognition && id in s.demands && s.demands[id].photo.Some? && faces != []
    requires !IsWaiting(s.demands[id])
    ensures var dir := s.demands[id].directory;
            var r := EncodeDemandPhoto(cfg, s, id, faces);
            && |WaitingIds(r.store, dir)| == |WaitingIds(s, dir)| + 1
            && (r.jobs == [SearchJob(dir)] <==> |WaitingIds(s, dir)| >= cfg.faceSearchingBatchSize)
            && (r.jobs == [] <==> |WaitingIds(s, dir)| < cfg.faceSearchingBatchSize)
  {
    var dir := s.demands[id].directory;
    EncodeSuccessJoinsWaiting(cfg, s, id, faces, dir);
    assert id !in WaitingIds(s, dir);
  }

  /** With a batch size of 2 and two demands already waiting in a directory,
      encoding a third one there dispatches the directory's search. */
  lemma ThirdDemandTriggersSearch(cfg: Config, s: Store, id: DemandId, faces: seq<FaceVector>)
    requires cfg.withFaceRecognition && cfg.faceSearchingBatchSize == 2
    requires id in s.demands && s.demands[id].photo.Some? && faces != []
    requires s.demands[id].status == NotProcessed
    requires |WaitingIds(s, s.demands[id].directory)| == 2
    ensures EncodeDemandPhoto(cfg, s, id, faces).jobs == [SearchJob(s.demands[id].directory)]
  {
    EncodeTriggersSearch(cfg, s, id, faces);
  }

  /** Encoding a demand again keeps the face vector it already holds when
      no new face is stored: the job as written leaves an image-less demand
      in FACE_ENCODING, and a new image without a face leaves it
      NO_FACE_FOUND, both still holding the old vector. */
  lemma ReencodeKeepsStaleVector(cfg: Config, s: Store, id: DemandId, faces: seq<FaceVector>)
    requires id in s.demands && s.demands[id].faceEncoding.Some?
    ensures s.demands[id].photo.None? ==>
              var r := EncodeDemandPhotoAsWritten(cfg, s, id, faces);
              && r.store.demands[id].status == FaceEncoding
              && r.store.demands[id].faceEncoding == s.demands[id].faceEncoding
    ensures s.demands[id].photo.Some? && cfg.withFaceRecognition && faces == [] ==>
              var r := EncodeDemandPhotoAsWritten(cfg, s, id, faces);
              && r.store.demands[id].status == Models.NoFaceFound
              && r.store.demands[id].faceEncoding == s.demands[id].faceEncoding
  {
  }

  /** With recognition switched off the encoded demand stays FACE_ENCODING
      and is counted as waiting by no directory; no search is fired for it. */
  lemma EncodeWithoutRecognitionNeverWaits(cfg: Config, s: Store, id: DemandId, faces: seq<FaceVector>, dir: DirId)
    requires !cfg.withFaceRecognition && id in s.demands
    ensures var r := EncodeDemandPhoto(cfg, s, id, faces);
            && r.store.demands[id].status == FaceEncoding
            && id !in WaitingIds(r.store, dir)
            && WaitingIds(r.store, dir) == WaitingIds(s, dir) - {id}
  {
    var r := EncodeDemandPhoto(cfg, s, id, faces);
    forall d ensures d in WaitingIds(r.store, dir) <==> d in WaitingIds(s, dir) - {id}
    {
      if d != id && d in s.demands {
        assert r.store.demands[d] == s.demands[d];
      }
    }
  }

  // ---------------------------------------------------------------------------
  // Redelivery

  /** Delivering the same compare job twice links nothing more than once. */
  lemma FindFacesIdempotent(cfg: Config, s: Store, ids: seq<DemandId>, queries: seq<FaceVector>, photo: PhotoId,
                            matches: (FaceVector, FaceVector) -> bool)
    requires |ids| == |queries|
    ensures var once := FindFaces(cfg, s, ids, queries, photo, matches).store;
            FindFaces(cfg, once, ids, queries, photo, matches).store == once
  {
    var once := FindFaces(cfg, s, ids, queries, photo, matches).store;
    var twice := FindFaces(cfg, once, ids, queries, photo, matches).store;
    if photo in s.photos && cfg.withFaceRecognition {
      assert once.photos == s.photos;
      forall d | d in once.demands
        ensures twice.demands[d] == once.demands[d]
      {
        if Matched(ids, queries, s.photos[photo].faceEncodings, matches, d) {
          assert photo in once.demands[d].photos;
        }
      }
      assert twice.demands == once.demands;
    }
  }

  /** A photo on which no face was found is linked to no demand. */
  lemma FindFacesWithoutFacesLinksNothing(cfg: Config, s: Store, ids: seq<DemandId>, queries: seq<FaceVector>,
                                          photo: PhotoId, matches: (FaceVector, FaceVector) -> bool)
    requires |ids| == |queries|
    requires photo in s.photos && s.photos[photo].faceEncodings == []
    ensures FindFaces(cfg, s, ids, queries, photo, matches).store == s
  {
    var r := FindFaces(cfg, s, ids, queries, photo, matches);
    if cfg.withFaceRecognition {
      forall d | d in s.demands
        ensures r.store.demands[d] == s.demands[d]
      {
        assert !Matched(ids, queries, s.photos[photo].faceEncodings, matches, d);
      }
      assert r.store.demands == s.demands;
    }
  }

  /** Delivering the ending job twice leaves the store as one delivery does
      (the mails are sent again). */
  lemma SearchEndingIdempotent(s: Store, ids: seq<DemandId>)
    ensures var once := SearchEnding(s, ids).store;
            SearchEnding(once, ids).store == once
  {
    var once := SearchEnding(s, ids).store;
    var twice := SearchEnding(once, ids).store;
    assert twice.demands == once.demands;
  }

  // ---------------------------------------------------------------------------
  // Referential integrity

  lemma EncodeDemandPhotoPreservesWf(cfg: Config, s: Store, id: DemandId, faces: seq<FaceVector>)
    requires Wf(s)
    ensures Wf(EncodeDemandPhoto(cfg, s, id, faces).store)
  {
  }

  lemma SearchPhotosPreservesWf(s: Store, dir: DirId)
    requires Wf(s)
    ensures Wf(SearchPhotos(s, dir).store)
  {
    MarkProcessingPreservesWf(s, WaitingIds(s, dir));
  }

  lemma MarkProcessingPreservesWf(s: Store, selected: set<DemandId>)
    requires Wf(s)
    ensures Wf(MarkProcessing(s, selected))
  {
  }

  lemma FindFacesPreservesWf(cfg: Config, s: Store, ids: seq<DemandId>, queries: seq<FaceVector>, photo: PhotoId,
                             matches: (FaceVector, FaceVector) -> bool)
    requires Wf(s) && |ids| == |queries|
    ensures Wf(FindFaces(cfg, s, ids, queries, photo, matches).store)
  {
  }

  lemma SearchEndingPreservesWf(s: Store, ids: seq<DemandId>)
    requires Wf(s)
    ensures Wf(SearchEnding(s, ids).store)
  {
    var t := SearchEnding(s, ids).store;
    forall d | d in t.demands
      ensures t.demands[d].directory == s.demands[d].directory && t.demands[d].photos == s.demands[d].photos
    {
    }
  }

  /** The encode job's new Photo row gets a key no row had and belongs to an
      existing directory. */
  lemma FaceEncodingPreservesWf(cfg: Config, s: Store, dir: DirId, path: string,
                                encoded: Option<seq<FaceVector>>, retries: nat)
    requires Wf(s)
    ensures var r := FaceEncodingTask(cfg, s, dir, path, encoded, retries);
            && Wf(r.store)
            && (r.outcome.Returned? ==> s.nextPhotoId !in s.photos)
  {
  }

  lemma IndexingDirectoryPreservesWf(s: Store, dir: DirId, walk: seq<WalkEntry>, now: Time, group: TaskId)
    requires Wf(s)
    ensures Wf(IndexingDirectory(s, dir, walk, now, group).store)
  {
  }
}
