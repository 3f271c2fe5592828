/** Storage constants of the file store (app/file/settings.py). */
module FileSettings {

  /** Hard cap on one upload, in MiB. */
  const MaxFileSizeLimitMb: nat := 4096

  /** Above this size (MiB) the replace route streams the upload. */
  const StreamUploadLimitMb: nat := 10

  /** `MAX_FILE_SIZE_LIMIT_MB * 1024 * 1024`, the byte limit every size check uses. */
  const MaxFileSizeBytes: nat := MaxFileSizeLimitMb * 1024 * 1024

  /** The members of the `FILE_PATH` enumeration. */
  datatype StoragePath = BasePath | TempPath | UserPath | AvatarPath

  /** The directory string of each `FILE_PATH` member. */
  function PathValue(p: StoragePath): string
  {
    match p
    case BasePath => "./media"
    case TempPath => "./media/temp"
    case UserPath => "./media/user"
    case AvatarPath => "./media/user/avatar"
  }

  /** `s in FILE_PATH` for a string `s`: it is the value of some member. */
  predicate IsStoragePath(s: string)
  {
    s == "./media" || s == "./media/temp" || s == "./media/user" || s == "./media/user/avatar"
  }

  lemma StoragePathsAreMembers(p: StoragePath)
    ensures IsStoragePath(PathValue(p))
  {
  }
}
