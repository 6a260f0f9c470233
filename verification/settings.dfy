/** The deployment settings the core reads. Times in the store are counted in
    seconds; the settings give minutes. */
module Settings {

  datatype Config = Config(
    /** WITH_FACE_RECOGNITION: when false, no image is ever encoded. */
    withFaceRecognition: bool,
    /** FACE_SEARCHING_BATCH_SIZE: a search fires once strictly more demands wait. */
    faceSearchingBatchSize: int,
    /** MAX_WAITING_TIME_BEFORE_SEARCH, in minutes. */
    maxWaitingTimeBeforeSearch: int,
    /** MIN_TIME_BETWEEN_DEMANDS, in minutes. */
    minTimeBetweenDemands: int)

  const SecondsPerMinute: int := 60

  /** `max_retries=3` of the per-file encode job. */
  const MaxRetries: nat := 3

  /** Length limit of the demand's CharField/EmailField columns. */
  const MaxFieldLength: nat := 200
}
