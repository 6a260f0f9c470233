# facereco — a Dafny model of the demand, directory and photo state machine

facereco lets a person submit a photo of their face for a given photo
directory. The face is encoded and compared with every indexed photo of
that directory. The person then receives a mail and can download, under a
random request token, a zip of the photos their face was found on.

This project models the core of the application in Dafny as pure functions
over one immutable `Store`:

- the background jobs (`facereco/tasks.py`);
- the model properties (`facereco/models.py`);
- the public and staff views (`facereco/views.py`);
- the admin actions and change-page buttons (`facereco/admin.py`);
- the submission form (`facereco/forms.py`).

How the model represents the application:

- **The store.** `Models.Store` holds the Demand, Directory and Photo tables
  as maps keyed by id, plus the set of uploaded image files. It also holds
  the next auto-increment key of the Demand and Photo tables.
- **A job.** Each background job is one atomic `Tasks.Step`: the new store,
  the jobs it dispatches, the mails it hands to the mail connection, and what
  the job returns, raises or asks to retry.
- **A view.** Each view returns a `Views.ViewResult`: the new store, the jobs
  it dispatches, and a `Response`.
- **Face recognition.** The library is an input. The faces found on an image
  are a parameter (`faces`, or `encoded` for the per-file job). A face
  comparison within tolerance is the predicate `matches(query, face)`, which
  the model applies element-wise just as the library's comparison does.
- **Other inputs.** The clock (`now`), the random request token (`token`),
  the e-mail address validator (`emailOk`), the files present on disk
  (`onDisk`), the directory walk (a sequence of `Tasks.WalkEntry`) and the
  result backend's job groups (`Models.GroupBackend`) are all parameters.

Modules:

- `Text`: decimal rendering of keys and the last component of a path.
- `Ordered`: a sorted enumeration of a finite set of keys. The ORM's row
  order is unspecified, so every enumeration uses ascending key order.
- `Settings`: the deployment settings the core reads.
- `Models`: the tables, and `is_processed`, `delete`, `indexed_photos`,
  `indexing_status` and `Photo.__str__`.
- `Forms`: field cleaning and the duplicate-demand check.
- `Tasks`: the seven jobs.
- `TaskProperties`: single-step properties:
  - the batching trigger;
  - idempotence of the compare and ending jobs under redelivery;
  - referential integrity.
- `Pipeline`: whole rounds.
  - A search round (search job, every compare job, ending job) links each
    waiting demand to exactly the photos its face matched. It marks the
    demand PROCESSED and sends it one mail, of the "no photo" kind exactly
    when it has no linked photo.
  - A re-index followed by every encode job leaves the directory INDEXED.
- `Views` and `Admin`.

## Model

| member | source | states |
|---|---|---|
| Text.ParseNatToString | facereco/models.py:95 | the decimal text of a key consists of digits only and reads back as the same key |
| Text.NatToStringInjective | facereco/models.py:95 | distinct keys give distinct decimal texts |
| Text.BasenameIsLastComponent | facereco/models.py:93 | the base name of a path is a suffix of it with no '/', and it starts right after the path's last '/' |
| Models.NewDemand | facereco/models.py:30-40 | a new demand is NOT_PROCESSED, neither waiting nor processed, with no linked photo, no face vector and no search job |
| Models.IsProcessed | facereco/models.py:47-49 | `is_processed` holds exactly in the PROCESSED state |
| Models.DeleteDemand | facereco/models.py:42-45 | deleting a demand removes its uploaded image from storage, and only it, then removes its row; every other row is unchanged |
| Models.DeletePhotos | facereco/models.py:36-37 | deleting Photo rows also removes every demand's links to them; nothing else changes |
| Models.RestoreGroup | facereco/models.py:73 | a group is restored exactly when a handle is recorded and the backend still knows it, and the restored group is the one the backend stores under that handle |
| Models.AnyChildFailed | facereco/models.py:75-77 | the child scan answers true exactly when some child is FAILURE or RETRY |
| Models.StatusFrom | facereco/models.py:66-80 | NOT_INDEXED iff the expected count is 0; INDEXED iff it is non-zero and equals the indexed count; INDEXING iff the counts differ, the group is restored and no child failed; ERROR iff they differ and the group is missing or some child failed |
| Models.ZeroTotalIsNotIndexed | facereco/models.py:68-69 | a directory expecting 0 photos is NOT_INDEXED, whatever rows or groups exist |
| Models.CompleteIsIndexed | facereco/models.py:70-71 | a directory whose positive expected count equals its Photo rows is INDEXED, even when its group failed or expired |
| Models.PhotoLabelNamesFile | facereco/models.py:91-93 | a photo with a path is labelled with its directory's name, ": " and the path's last component |
| Models.PhotoLabelNamesKey | facereco/models.py:94-95 | a photo without a path is labelled "Photo id=" followed by digits that read back as its key |
| Forms.CleanText | facereco/models.py:30-31 | a text field is accepted iff its stripped value is non-empty, at most 200 characters and free of the null character, and the stripped value is what is kept |
| Forms.CleanEmail | facereco/models.py:32 | the e-mail is accepted iff it passes as a text field and the address validator accepts its stripped value |
| Forms.CleanDirectory | facereco/forms.py:11 | a directory choice is accepted iff it names an existing, visible directory |
| Forms.Errors | facereco/forms.py:10-16 | each field error is reported iff its field fails cleaning; the photo is required |
| Forms.DuplicateIffSameDemand | facereco/forms.py:25-33 | the form-wide error is reported iff some stored demand has the cleaned name or cleaned e-mail, is in the chosen directory and is at most MIN_TIME_BETWEEN_DEMANDS minutes old |
| Forms.ValidSubmissionShape | facereco/forms.py:10-16 | an accepted submission names a visible directory and carries a photo, and its text fields are non-empty, at most 200 characters, and the e-mail is valid |
| Forms.SameNameRecentlyIsDuplicate | facereco/forms.py:28-32 | a recent demand in the same directory under the same name refuses the submission, whatever the e-mails |
| Forms.SameEmailRecentlyIsDuplicate | facereco/forms.py:28-32 | a recent demand in the same directory with the same e-mail refuses the submission, whatever the names |
| Forms.OnlyRecentSameDirectoryDemandsCount | facereco/forms.py:27-31 | demands of other directories, or older than the interval, never cause the duplicate error |
| Forms.HiddenDirectoryRefused | facereco/forms.py:11 | a hidden directory can never be chosen |
| Tasks.ErrorMailTask | facereco/tasks.py:24-35 | the error job raises iff the demand is gone; otherwise it sends exactly one error mail to the demand's address; it never changes the store |
| Tasks.EncodeDemandPhoto | facereco/tasks.py:38-77 | unknown demand: raises and changes nothing. FACE_ENCODING is saved before the image is checked; no image: raises. No face: NO_FACE_FOUND plus one error-mail job. Otherwise the first face is kept, the demand is WAITING_FOR_SEARCH and its upload is deleted; with recognition off it stays FACE_ENCODING. A search of its directory is dispatched iff strictly more than FACE_SEARCHING_BATCH_SIZE demands then wait there. No other row changes. This is the intended job of the tasks.py:49 finding |
| Tasks.EncodeDemandPhotoAsWritten | facereco/tasks.py:46-77 | the job with its image test as written: a demand with an image is encoded as intended; one without is saved as FACE_ENCODING and never gets "No photo found": with recognition on the job raises the "no file associated" error, with it off it returns and dispatches the directory's search iff more than FACE_SEARCHING_BATCH_SIZE demands wait there |
| Tasks.EncodeAsWrittenNeverReportsNoPhoto | facereco/tasks.py:49-53 | for a demand without an image the intended job raises "No photo found" and dispatches nothing; the job as written leaves the same store, never raises that error, and with recognition off dispatches the search when enough demands wait |
| Tasks.CheckIfSearchPhotosNeeded | facereco/tasks.py:80-90 | the sweep dispatches only search jobs, no two alike: one for a directory iff it holds a waiting demand at least MAX_WAITING_TIME_BEFORE_SEARCH minutes old; the store is unchanged |
| Tasks.SelectedIds | facereco/tasks.py:96-108 | a search selects each waiting demand of the directory (WAITING_FOR_SEARCH with a face vector) exactly once, and nothing else |
| Tasks.CompareJobs | facereco/tasks.py:114-116 | one compare job per Photo row of the directory, each photo once, all carrying the same ids and queries |
| Tasks.SearchPhotos | facereco/tasks.py:94-127 | with nothing waiting, nothing happens. Otherwise it dispatches the directory's compare jobs followed by one ending job over the selected ids, and marks exactly the selected demands PROCESSING |
| Tasks.MatchVector | facereco/tasks.py:158-164 | starting from all-false and OR-ing each face's comparison, entry i is true iff some face of the photo matches query i |
| Tasks.FindFaces | facereco/tasks.py:138-179 | a missing photo changes nothing. With recognition on, exactly the stored demands whose query matched some face of the photo gain a link to it; vanished demands are skipped; nothing else changes |
| Tasks.ResultMail | facereco/tasks.py:191-209 | the result mail goes to the demand's address and is the "no photo" kind iff the demand has no linked photo |
| Tasks.Existing | facereco/tasks.py:185-213 | the ending job handles exactly the listed demands that still exist |
| Tasks.EndEach | facereco/tasks.py:185-213 | each listed stored demand becomes PROCESSED and gets its result mail, in list order; every other row is unchanged |
| Tasks.SearchEnding | facereco/tasks.py:181-219 | the ending job marks the listed stored demands PROCESSED and sends one mail per such demand, of the "no photo" kind iff it has no linked photo |
| Tasks.FaceEncodingTask | facereco/tasks.py:224-247 | an attempt succeeds iff the directory exists and, with recognition on, the image was encoded. Success inserts exactly one new Photo row with the path and the found faces (none when recognition is off). A failure changes nothing and asks for a retry while fewer than 3 retries were made, else raises |
| Tasks.RetryCreatesPhotoOnce | facereco/tasks.py:224-247 | k failed attempts within the retry bound, then one success, create exactly one Photo row, with the faces of the successful attempt |
| Tasks.RetryGivesUp | facereco/tasks.py:224-247 | when every attempt fails, the job raises after 3 retries and creates no row |
| Tasks.WalkPaths | facereco/tasks.py:263-265 | as many paths as the walk reports files |
| Tasks.WalkPathsAreTheFiles | facereco/tasks.py:263-265 | every path is `dirpath + "/" + filename` for a file of the walk, and every file of the walk has its path |
| Tasks.IndexingDirectory | facereco/tasks.py:250-278 | an unknown directory raises and changes nothing. Otherwise it deletes the directory's Photo rows and their links, dispatches one encode job per walked file, records the group, the file count and the time, and returns the count |
| TaskProperties.EncodeSuccessJoinsWaiting | facereco/tasks.py:62-74 | a successful encode adds exactly its demand to its directory's waiting set and removes it from every other directory's |
| TaskProperties.EncodeTriggersSearch | facereco/tasks.py:72-77 | for a demand not already waiting, the waiting count grows by one, and the search fires iff at least FACE_SEARCHING_BATCH_SIZE others were waiting |
| TaskProperties.ThirdDemandTriggersSearch | facereco/tasks.py:76-77 | with a batch size of 2 and two demands waiting, encoding a third dispatches the search |
| TaskProperties.ReencodeKeepsStaleVector | facereco/tasks.py:46-67 | encoding a demand that already holds a face vector keeps that vector when no new face is stored: FACE_ENCODING for an image-less demand under the job as written, NO_FACE_FOUND for an image without a face |
| TaskProperties.EncodeWithoutRecognitionNeverWaits | facereco/tasks.py:46-52 | with recognition off, the demand stays FACE_ENCODING and joins no waiting set |
| TaskProperties.FindFacesIdempotent | facereco/tasks.py:169-174 | redelivering a compare job links nothing more |
| TaskProperties.FindFacesWithoutFacesLinksNothing | facereco/tasks.py:158-170 | a photo without faces is linked to no demand |
| TaskProperties.SearchEndingIdempotent | facereco/tasks.py:185-189 | redelivering the ending job leaves the store as one delivery does |
| TaskProperties.EncodeDemandPhotoPreservesWf | facereco/tasks.py:38-77 | the encode job keeps every reference between rows valid |
| TaskProperties.SearchPhotosPreservesWf | facereco/tasks.py:94-127 | the search job keeps every reference between rows valid |
| TaskProperties.FindFacesPreservesWf | facereco/tasks.py:138-179 | the compare job keeps every reference between rows valid |
| TaskProperties.SearchEndingPreservesWf | facereco/tasks.py:181-219 | the ending job keeps every reference between rows valid |
| TaskProperties.FaceEncodingPreservesWf | facereco/tasks.py:243 | the new Photo row gets a fresh key and belongs to an existing directory |
| TaskProperties.IndexingDirectoryPreservesWf | facereco/tasks.py:250-278 | re-indexing keeps every reference between rows valid |
| Pipeline.ComparesLinkMatches | facereco/tasks.py:138-179 | running compare jobs that share one query links to each demand exactly the photos whose faces matched its query, and changes nothing else |
| Pipeline.SearchLinks | facereco/tasks.py:114-116 | over a search's compare jobs, a selected demand is linked to exactly the photos of the directory its face matches, and any other demand to none |
| Pipeline.CompareRound | facereco/tasks.py:114-179 | after the dispatch and every compare job, the selected demands are PROCESSING and linked to their matching photos; the other demands are unchanged |
| Pipeline.ComparePhase | facereco/tasks.py:94-179 | the search job ends its dispatch with the ending job over the selected ids, and its compare jobs leave the store described by CompareRound |
| Pipeline.EndRoundStore | facereco/tasks.py:181-219 | the ending job after the compares leaves the selected demands PROCESSED with their matches added and nothing else changed |
| Pipeline.EndRoundMails | facereco/tasks.py:181-219 | the ending job after the compares sends each selected demand exactly one mail, of the "no photo" kind iff it ends without a linked photo |
| Pipeline.SearchRound | facereco/tasks.py:94-219 | a full search round: every waiting demand ends PROCESSED with exactly its matching photos added to its links and gets one mail, of the "no photo" kind iff it has no linked photo; nothing else changes |
| Pipeline.EncodeFilesCount | facereco/tasks.py:224-245 | each successful per-file encode job adds one Photo row to its directory |
| Pipeline.ReindexCompletes | facereco/tasks.py:250-278 | re-indexing and then running every encode job to success leaves as many Photo rows as files found, and the directory INDEXED (NOT_INDEXED when empty), whatever its group reports |
| Views.Index | facereco/views.py:15-26 | a valid post saves one NOT_PROCESSED demand under the next id, with the cleaned name, first name and e-mail, the chosen directory, the upload, the submission time and the token, and no links, face vector or search job; it dispatches exactly its encode job; anything else saves nothing, and an invalid post reports the form's errors |
| Views.DownloadOf | facereco/views.py:32-53 | "not yet processed" iff the demand is not PROCESSED; "no photo" iff processed without linked photos; an archive named after the demand iff every linked file is on disk, holding each linked photo once under its base name; "photos no longer available" iff processed with linked photos one of whose files is missing |
| Views.Download | facereco/views.py:29-31 | 404 iff no demand has the token; an error iff several do; otherwise the reply for the one demand |
| Views.ZipEntries | facereco/views.py:44-46 | the archive holds exactly one entry per linked photo, named after its file |
| Views.IndexingDirectoryView | facereco/views.py:56-64 | 404 for an unknown directory; 409 with no dispatch iff the directory is INDEXING; otherwise exactly one indexing job |
| Views.IndexingDirectoryProgress | facereco/views.py:67-75 | 404 iff the directory is unknown; otherwise the name of its indexing status, the expected count and the number of Photo rows |
| Views.ForceSearching | facereco/views.py:77-91 | a search is dispatched iff the directory exists, is INDEXED and has a waiting demand; ERROR when not indexed, NOTHING_TO_SEARCH when nothing waits |
| Views.RerunFaceEncoding | facereco/views.py:94-102 | 404 for an unknown demand; an error and no dispatch iff the demand has no image; otherwise exactly its encode job |
| Views.RerunFaceEncodingAsWritten | facereco/views.py:97 | as written, every stored demand gets its encode job re-dispatched |
| Views.RerunAsWrittenIgnoresMissingPhoto | facereco/views.py:97-100 | for a demand without an image, the view as written dispatches an encode job which, as written, puts the demand back to FACE_ENCODING (no longer downloadable) and raises the "no file associated" error with recognition on, or returns with nothing encoded with it off; the intended view refuses with "Demand has no photo" |
| Views.RerunRefusedAfterEncoding | facereco/views.py:97 | after a successful encode deleted the image, the intended view refuses and the view as written dispatches |
| Views.IndexPreservesWf | facereco/views.py:18-19 | saving a valid submission keeps every reference between rows valid |
| Views.ResubmissionRefused | facereco/forms.py:27-33 | posting the same form again within MIN_TIME_BETWEEN_DEMANDS minutes is refused as a duplicate and saves nothing |
| Views.SubmitThenEncode | facereco/views.py:18-21 | a saved submission whose image shows a face ends WAITING_FOR_SEARCH in its directory once its encode job runs, and its upload is gone |
| Views.SubmittedTokenNotYetDownloadable | facereco/views.py:31-33 | the token of a fresh submission finds its demand, which answers "not yet processed" |
| Views.ForcedSearchFindsDemands | facereco/views.py:83-89 | a search started by the view finds at least one demand and dispatches one compare job per photo plus the ending job |
| Views.IndexingStateNameInjective | facereco/models.py:66-80 | the four status names are distinct, so comparing names compares states |
| Admin.ResetDemandSearch | facereco/admin.py:9-11 | the selected demands become WAITING_FOR_SEARCH with no search job; no other field or row changes |
| Admin.ResetRequeuesEncoded | facereco/admin.py:10-11 | after the reset, a directory's waiting set is the old one plus the selected demands of it that hold a face vector |
| Admin.ResetStrandsUnencoded | facereco/admin.py:11 | a selected demand without a face vector becomes WAITING_FOR_SEARCH yet no search ever selects it |
| Admin.ResetDemandSearchIdempotent | facereco/admin.py:9-11 | resetting twice is resetting once |
| Admin.ResetDirectory | facereco/admin.py:38-42 | the Photo rows of the selected directories and their links are deleted, and those directories' group, expected count and indexing date are cleared; nothing else changes |
| Admin.ResetDirectoryClears | facereco/admin.py:38-42 | a reset directory has no Photo row and is NOT_INDEXED; other directories keep their rows |
| Admin.ResetDirectoryPreservesWf | facereco/admin.py:38-42 | the reset keeps every reference between rows valid |
| Admin.RerunEncodingButton | facereco/admin.py:16-25 | no control for an unsaved demand; "no photo" iff saved without an image; the button iff saved with an image and NOT_PROCESSED or NO_FACE_FOUND |
| Admin.RerunEncodingButtonAsWritten | facereco/admin.py:20-21 | as written, "no photo" is never shown and the button is offered iff the demand is saved and NOT_PROCESSED or NO_FACE_FOUND |
| Admin.RerunButtonAsWrittenOffersWithoutPhoto | facereco/admin.py:18-25 | a NOT_PROCESSED demand without an image gets the button as written; its job as written leaves the demand in FACE_ENCODING with its face vector unchanged, raising the "no file associated" error with recognition on and returning with it off; the intended control says "no photo" |
| Admin.RerunButtonLeadsToEncoding | facereco/admin.py:22-25 | whenever the intended control shows the button for a stored demand, the intended re-run view dispatches exactly that demand's encode job |
| Admin.RerunButtonHiddenOncePastEncoding | facereco/admin.py:22-23 | the button is never offered once the demand is FACE_ENCODING, waiting, PROCESSING or PROCESSED |
| Admin.ForceSearchButtonFor | facereco/admin.py:51-58 | no control for an unsaved directory; otherwise the button, flagged iff some demand of the directory is PROCESSING |
| Admin.AlreadySearchingIffProcessing | facereco/admin.py:55 | the flag is raised exactly when some demand of the directory is PROCESSING |
| Admin.DispatchedSearchShows | facereco/admin.py:55 | right after a search is dispatched, the button shows it as under way |
| Admin.FinishedRoundClears | facereco/admin.py:55 | once a full search round has run, the flag is down again, provided no demand was PROCESSING before |

## Left out

- Job queue mechanics: chunking, groups, chords, delivery and worker
  scheduling are not modelled. A dispatch is a `Tasks.Job` value. Whole
  rounds are modelled by running the dispatched jobs in order
  (`Pipeline.RoundResult`, `Pipeline.RunEncodeFiles`). Chunk sizes therefore
  play no part.
- Concurrency: each job is one atomic step. Interleavings are not modelled,
  for example a demand encoded between a search's selection and its
  PROCESSING update.
- The face library, numpy and the matching tolerance: found faces are an
  input and matching is the `matches` predicate.
- Mail rendering and sending: a mail is a `Tasks.Mail` tag (demand,
  recipient, kind). Its subject and body templates are not modelled.
- The filesystem:
  - the directory walk is an input;
  - zip writing is modelled only as the list of entries;
  - a missing file (the FileNotFoundError path) is decided by the `onDisk`
    parameter;
  - upload storage naming is left out: an upload is its stored name.
- The 5-second sleep of the per-file encode job when recognition is off.
- The ORM, HTTP plumbing, templates, URL routing and the staff-login
  decorator: a view is a function of the store. Authentication is not
  modelled.
- E-mail address syntax: `Forms.CleanEmail` takes the validator as the
  `emailOk` parameter.
- The image-content validation of the upload field: any uploaded file
  counts as an image.
- Forms.CleanText: only ASCII whitespace (space, tab, line feed, vertical
  tab, form feed, carriage return) is stripped. Unicode spaces are not,
  because the model has no character classes.
- The randomness of the request token (uuid4): the token is a parameter, and
  the lemmas about downloads assume it is fresh.
- The `index_button` of the directory change page: it only renders a
  template and has no logic.
- The date of a demand is a number of seconds; time zones are not modelled.
- Tasks.EncodeDemandPhoto: the check `demand.photo is None` (tasks.py:49) is
  modelled as intended, as "the demand has no uploaded image", and the rest
  of the model uses this job. The job as written is
  `Tasks.EncodeDemandPhotoAsWritten` (see "## Findings").
- Models.PhotoLabelNamesFile: the `is not None` tests of `Photo.__str__`
  (models.py:92) are left out. The path and the directory are non-null
  columns, so for a loaded photo both tests hold and only the empty-path
  test decides.
- A search round does not replace a demand's links: the matches are added
  to the links it already had (`Pipeline.StoreAfterRound`). For a first
  search the two readings agree.
- The model does not hold a face vector exactly in the states
  WAITING_FOR_SEARCH, PROCESSING and PROCESSED, because the code does not
  keep that rule. Two cases break it:
  - `reset_demand_search` can put a demand without a vector into
    WAITING_FOR_SEARCH (`Admin.ResetStrandsUnencoded`);
  - encoding again a demand that already holds a vector keeps the old
    vector when no new face is stored. The demand is left FACE_ENCODING or
    NO_FACE_FOUND (`TaskProperties.ReencodeKeepsStaleVector`).
  The model follows the code.
- The recount that may fire a search runs after every encode that neither
  raises nor finds no face, including with recognition off. It is not
  limited to successful encodes, and the model follows the code.
- The link target of the re-run button (admin.py:22-25 only renders a
  template) and the route of the re-run view are not part of this model:
  the URL configuration routes no such view. `Admin.RerunButtonLeadsToEncoding`
  relates the intended control to the intended view only.

## Findings

| source | as written | input that shows it | evidently intended | confidence | as-written member | corrected member |
|---|---|---|---|---|---|---|
| facereco/views.py:97 | `demand.photo is None` compares the image field's file wrapper with None, which is never true, so the view always re-dispatches the encode job | a demand whose encoding succeeded, so its image was deleted: the view dispatches an encode job that puts the demand back to FACE_ENCODING and, with recognition on, fails reading the missing image | refuse with "Demand has no photo" when the demand has no image file | high (not executed) | Views.RerunAsWrittenIgnoresMissingPhoto | Views.RerunFaceEncoding |
| facereco/tasks.py:49 | the same `demand.photo is None` test never holds, so "No photo found" is never raised | a demand without an image file: with recognition on the job fails reading the image's path; with recognition off it returns normally and may dispatch a search | raise "No photo found" for a demand with no image file | medium (not executed) | Tasks.EncodeAsWrittenNeverReportsNoPhoto | Tasks.EncodeDemandPhoto |
| facereco/admin.py:20 | the same `obj.photo is None` test never holds, so "No photo to encode" is never shown | a NOT_PROCESSED demand whose image was cleared on its change page: the re-run button is offered and its job leaves the demand in FACE_ENCODING with nothing encoded | show "No photo to encode" for a demand with no image file | high (not executed) | Admin.RerunButtonAsWrittenOffersWithoutPhoto | Admin.RerunEncodingButton |
