/** The durable side of a storage adapter: what is on the medium, what a commit may
    leave there and what a start-up stages from it. */
module Media {
  import opened Bytes
  import opened Options
  import FileImage

  const NVS_CAPACITY: nat := 4096

  /** Two generation files and whether they have power, one whole blob, or nothing that
      survives. */
  datatype Medium =
    | FilesMedium(files: FileImage.Files, gen: uint32, on: bool)
    | NvsMedium(blob: Option<Block>)
    | NoMedium

  /** Committing `staged`: the file discipline, an atomic blob put, or nothing at all. */
  ghost predicate CommitEffect(m: Medium, staged: Block, m': Medium, ok: bool) {
    match m
    case FilesMedium(files, gen, on) =>
      m'.FilesMedium? && |staged| < WORD_LIMIT &&
      FileImage.CommitCall(FileImage.FileStore(files, staged, gen, on),
                           FileImage.FileStore(m'.files, staged, m'.gen, m'.on), ok)
    case NvsMedium(blob) =>
      (m' == m || m' == NvsMedium(Some(staged))) && (ok ==> m' == NvsMedium(Some(staged)))
    case NoMedium =>
      m' == m && ok
  }

  /** Which of the two files an erase removed. */
  datatype Removals = Removals(a: bool, b: bool)

  /** Erasing: files go at once, other media keep what they have until a commit. */
  ghost predicate EraseEffect(m: Medium, staged: Block, gone: Removals, m': Medium) {
    match m
    case FilesMedium(files, gen, on) =>
      m'.FilesMedium? &&
      FileImage.EraseCall(FileImage.FileStore(files, staged, gen, on),
                          FileImage.FileStore(m'.files, Fill(|staged|, 0), m'.gen, m'.on), gone.a, gone.b)
    case _ => m' == m
  }

  /** The byte an erase stages. */
  function Blank(m: Medium): byte {
    if m.FilesMedium? then 0 else 0xFF
  }

  /** The bytes a start-up stages, and the medium as the adapter then knows it. */
  function Staged(m: Medium, capacity: uint32): (r: Block)
    ensures |r| == capacity
  {
    match m
    case FilesMedium(files, _, _) => FileImage.BeginResult(files, capacity).staging
    case NvsMedium(blob) => if blob.Some? && |blob.value| == capacity then blob.value else Fill(capacity, 0xFF)
    case NoMedium => Fill(capacity, 0xFF)
  }

  function Rebooted(m: Medium, capacity: uint32): Medium {
    match m
    case FilesMedium(files, _, _) => FilesMedium(files, FileImage.BeginResult(files, capacity).gen, true)
    case _ => m
  }

  /** A start-up without a record: zeros from files, erased bytes from NVS, of 4096. */
  lemma BlankStarts(capacity: uint32, k: nat)
    requires k < capacity
    ensures Staged(FilesMedium(FileImage.Files(FileImage.Absent, FileImage.Absent), 0, true), capacity)[k] == 0x00
    ensures Staged(NvsMedium(None), capacity)[k] == 0xFF && NVS_CAPACITY == 4096
  {
    hide FileImage.FilePayload, FileImage.Generation;
  }
}
