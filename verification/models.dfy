/** The three persistent records (Demand, Directory, Photo), the store that
    holds them, and the derived properties the models expose
    (`is_processed`, `indexed_photos`, `indexing_status`, `Photo.__str__`). */
module Models {
  import opened Text

  datatype Option<T> = None | Some(value: T)

  type DemandId = nat
  type DirId = nat
  type PhotoId = nat
  /** Instants, in seconds. */
  type Time = int
  /** An opaque handle of a job or job group in the queue's result backend. */
  type TaskId = string
  /** One face, as the vector the recognition library computes for it. */
  type FaceVector = seq<real>

  /** The processing state of a demand. */
  datatype Status =
    | NotProcessed
    | FaceEncoding
    | NoFaceFound
    | WaitingForSearch
    | Processing
    | Processed

  /** The text the store keeps for each state. */
  function StatusName(st: Status): string {
    match st
    case NotProcessed => "NOT_PROCESSED"
    case FaceEncoding => "FACE_ENCODING"
    case NoFaceFound => "NO_FACE_FOUND"
    case WaitingForSearch => "WAITING_FOR_SEARCH"
    case Processing => "PROCESSING"
    case Processed => "PROCESSED"
  }

  datatype Demand = Demand(
    name: string,
    firstName: string,
    email: string,
    /** Path of the uploaded image; None when there is none or it was deleted. */
    photo: Option<string>,
    date: Time,
    status: Status,
    directory: DirId,
    /** The photos found to show the person (a many-to-many link). */
    photos: set<PhotoId>,
    requestToken: nat,
    faceEncoding: Option<FaceVector>,
    searchTaskId: Option<TaskId>)

  datatype Directory = Directory(
    name: string,
    path: string,
    isVisible: bool,
    indexingTaskId: Option<TaskId>,
    totalPhotos: int,
    lastIndexingDate: Option<Time>)

  datatype Photo = Photo(
    directory: DirId,
    path: string,
    faceEncodings: seq<FaceVector>)

  /** The database and the upload storage. `nextDemandId` and `nextPhotoId`
      are the tables' auto-increment counters. */
  datatype Store = Store(
    demands: map<DemandId, Demand>,
    dirs: map<DirId, Directory>,
    photos: map<PhotoId, Photo>,
    uploads: set<string>,
    nextDemandId: nat,
    nextPhotoId: nat)

  /** Referential integrity the database enforces: foreign keys point at
      existing rows, link rows point at existing photos, and every id was
      handed out by its table's counter. */
  predicate Wf(s: Store) {
    && (forall d :: d in s.demands ==> d < s.nextDemandId)
    && (forall d :: d in s.demands ==> s.demands[d].directory in s.dirs)
    && (forall d :: d in s.demands ==> s.demands[d].photos <= s.photos.Keys)
    && (forall p :: p in s.photos ==> p < s.nextPhotoId)
    && (forall p :: p in s.photos ==> s.photos[p].directory in s.dirs)
  }

  /** A demand as the submission form creates it: every other field takes its
      column default. */
  function NewDemand(name: string, firstName: string, email: string, photo: string,
                     date: Time, directory: DirId, token: nat): (d: Demand)
    ensures d.status == NotProcessed
    ensures !IsWaiting(d) && !IsProcessed(d)
    ensures d.photos == {} && d.faceEncoding == None && d.searchTaskId == None
    ensures d.photo == Some(photo) && d.directory == directory && d.date == date
  {
    Demand(name, firstName, email, Some(photo), date, NotProcessed, directory, {}, token, None, None)
  }

  /** `Demand.is_processed` compares the stored text with "PROCESSED". */
  predicate IsProcessed(d: Demand)
    ensures IsProcessed(d) <==> d.status == Processed
  {
    StatusName(d.status) == "PROCESSED"
  }

  /** A demand a search may pick up: waiting, and with a face to look for. */
  predicate IsWaiting(d: Demand) {
    d.status == WaitingForSearch && d.faceEncoding.Some?
  }

  /** The demands of `dir` that the next search of `dir` would select. */
  function WaitingIds(s: Store, dir: DirId): set<DemandId> {
    set d | d in s.demands && IsWaiting(s.demands[d]) && s.demands[d].directory == dir
  }

  /** The Photo rows of `dir`. */
  function PhotosOf(s: Store, dir: DirId): set<PhotoId> {
    set p | p in s.photos && s.photos[p].directory == dir
  }

  /** `Directory.indexed_photos`: how many Photo rows the directory has. */
  function IndexedPhotos(s: Store, dir: DirId): nat {
    |PhotosOf(s, dir)|
  }

  /** `Demand.delete`: removes the uploaded image from storage, then the row
      itself (with its links to photos). */
  function DeleteDemand(s: Store, id: DemandId): (r: Store)
    requires id in s.demands
    ensures r.demands.Keys == s.demands.Keys - {id}
    ensures forall d :: d in r.demands ==> r.demands[d] == s.demands[d]
    ensures s.demands[id].photo.Some? ==> r.uploads == s.uploads - {s.demands[id].photo.value}
    ensures s.demands[id].photo.None? ==> r.uploads == s.uploads
    ensures r.dirs == s.dirs && r.photos == s.photos
    ensures r.nextDemandId == s.nextDemandId && r.nextPhotoId == s.nextPhotoId
  {
    var uploads := match s.demands[id].photo
      case Some(f) => s.uploads - {f}
      case None => s.uploads;
    s.(demands := map d | d in s.demands && d != id :: s.demands[d], uploads := uploads)
  }

  /** Deleting Photo rows also deletes the demands' links to them. */
  function DeletePhotos(s: Store, gone: set<PhotoId>): (r: Store)
    ensures r.photos.Keys == s.photos.Keys - gone
    ensures forall p :: p in r.photos ==> r.photos[p] == s.photos[p]
    ensures r.demands.Keys == s.demands.Keys
    ensures forall d :: d in r.demands ==>
              r.demands[d] == s.demands[d].(photos := s.demands[d].photos - gone)
    ensures r.dirs == s.dirs && r.uploads == s.uploads
    ensures r.nextDemandId == s.nextDemandId && r.nextPhotoId == s.nextPhotoId
  {
    s.(photos := map p | p in s.photos && p !in gone :: s.photos[p],
       demands := map d | d in s.demands :: s.demands[d].(photos := s.demands[d].photos - gone))
  }

  // ---------------------------------------------------------------------------
  // Indexing status

  /** The state the result backend reports for one child job of a group. */
  datatype ChildState = Pending | Started | Success | Failure | Retry | Revoked

  predicate IsFailedChild(c: ChildState) {
    c == Failure || c == Retry
  }

  /** The stored job groups that can still be restored, by handle; a handle
      that is absent has expired or never existed. */
  type GroupBackend = map<TaskId, seq<ChildState>>

  function RestoreGroup(backend: GroupBackend, id: Option<TaskId>): (g: Option<seq<ChildState>>)
    ensures g.Some? <==> id.Some? && id.value in backend
    ensures g.Some? ==> g.value == backend[id.value]
  {
    if id.Some? && id.value in backend then Some(backend[id.value]) else None
  }

  datatype IndexingState = NotIndexed | Indexed | Indexing | IndexingError

  /** The text `indexing_status` returns for each state. */
  function IndexingStateName(st: IndexingState): string {
    match st
    case NotIndexed => "NOT_INDEXED"
    case Indexed => "INDEXED"
    case Indexing => "INDEXING"
    case IndexingError => "ERROR"
  }

  /** Scans the children in order and stops at the first failed or retrying one. */
  function AnyChildFailed(children: seq<ChildState>): (r: bool)
    ensures r <==> exists i :: 0 <= i < |children| && IsFailedChild(children[i])
  {
    if |children| == 0 then false
    else IsFailedChild(children[0]) || AnyChildFailed(children[1..])
  }

  /** The decision of `Directory.indexing_status`, from the expected count, the
      indexed count and the restored group (None when it cannot be restored). */
  function StatusFrom(total: int, indexed: nat, group: Option<seq<ChildState>>): (r: IndexingState)
    ensures total == 0 ==> r == NotIndexed
    ensures r == NotIndexed ==> total == 0
    ensures r == Indexed <==> total != 0 && total == indexed
    ensures r == Indexing <==>
              && total != 0 && total != indexed && group.Some?
              && forall i :: 0 <= i < |group.value| ==> !IsFailedChild(group.value[i])
    ensures r == IndexingError <==>
              && total != 0 && total != indexed
              && (group.None? || exists i :: 0 <= i < |group.value| && IsFailedChild(group.value[i]))
  {
    if total == 0 then NotIndexed
    else if total == indexed then Indexed
    else match group
      case None => IndexingError
      case Some(children) => if AnyChildFailed(children) then IndexingError else Indexing
  }

  /** `Directory.indexing_status` for a stored directory. */
  function IndexingStatus(s: Store, dir: DirId, backend: GroupBackend): IndexingState
    requires dir in s.dirs
  {
    StatusFrom(s.dirs[dir].totalPhotos, IndexedPhotos(s, dir),
               RestoreGroup(backend, s.dirs[dir].indexingTaskId))
  }

  /** A directory whose expected count is 0 is NOT_INDEXED, whatever Photo rows
      and job groups exist for it. */
  lemma ZeroTotalIsNotIndexed(s: Store, dir: DirId, backend: GroupBackend)
    requires dir in s.dirs && s.dirs[dir].totalPhotos == 0
    ensures IndexingStatus(s, dir, backend) == NotIndexed
  {
  }

  /** With a positive expected count matched by the Photo rows, the directory
      is INDEXED whatever its job group says, even failures or an expired
      handle. */
  lemma CompleteIsIndexed(s: Store, dir: DirId, backend: GroupBackend)
    requires dir in s.dirs && s.dirs[dir].totalPhotos > 0
    requires s.dirs[dir].totalPhotos == IndexedPhotos(s, dir)
    ensures IndexingStatus(s, dir, backend) == Indexed
  {
  }

  // ---------------------------------------------------------------------------
  // Photo.__str__

  const PhotoIdPrefix: string := "Photo id="

  /** `Photo.__str__`, given the photo's key and its directory. The directory
      column cannot be null, so a loaded photo always has its directory. */
  function PhotoLabel(pk: PhotoId, p: Photo, dir: Directory): string {
    if p.path != "" then dir.name + ": " + Basename(p.path)
    else PhotoIdPrefix + NatToString(pk)
  }

  /** With a path, a label is the directory name, ": " and
      the last path component: no '/', taken right after the path's last
      '/'. */
  lemma PhotoLabelNamesFile(pk: PhotoId, p: Photo, dir: Directory)
    requires p.path != ""
    ensures var r := PhotoLabel(pk, p, dir);
            var n := |dir.name|;
            && |r| >= n + 2 && r[..n] == dir.name && r[n..n + 2] == ": "
            && |r| - n - 2 <= |p.path|
            && r[n + 2..] == p.path[|p.path| - (|r| - n - 2)..]
            && (forall i :: n + 2 <= i < |r| ==> r[i] != '/')
            && (|r| - n - 2 < |p.path| ==> p.path[|p.path| - (|r| - n - 2) - 1] == '/')
  {
    var b := Basename(p.path);
    BasenameIsLastComponent(p.path);
    JoinedParts(dir.name, b);
    var r := PhotoLabel(pk, p, dir);
    assert r == dir.name + ": " + b;
    assert |r| - |dir.name| - 2 == |b|;
  }

  /** The parts of "a: b" sit where the concatenation puts them. */
  lemma JoinedParts(a: string, b: string)
    ensures var r := a + ": " + b;
            && |r| == |a| + 2 + |b| && r[..|a|] == a && r[|a|..|a| + 2] == ": " && r[|a| + 2..] == b
            && forall i :: |a| + 2 <= i < |r| ==> r[i] == b[i - |a| - 2]
  {
  }

  /** Without a path a label is "Photo id=" and the key, readable back from it. */
  lemma PhotoLabelNamesKey(pk: PhotoId, p: Photo, dir: Directory)
    requires p.path == ""
    ensures var r := PhotoLabel(pk, p, dir);
            && |r| > |PhotoIdPrefix| && r[..|PhotoIdPrefix|] == PhotoIdPrefix
            && AllDigits(r[|PhotoIdPrefix|..]) && ParseNat(r[|PhotoIdPrefix|..]) == pk
  {
    var r := PhotoLabel(pk, p, dir);
    assert r[|PhotoIdPrefix|..] == NatToString(pk);
    ParseNatToString(pk);
  }
}
