/** What the tool reads of git: commits, and trees listed record by record at
    their full paths. Directories are implied by the paths below them. */
module Repository {
  import opened Bytes
  import opened ManifestModel

  type ObjectId = d: Bytes | |d| == 20 witness "01234567890123456789"

  /** One record of a tree traversal: the raw mode bits, and the blob's bytes
      (`None` when the object cannot be read) or a gitlink's commit. */
  datatype Record = Record(path: Bytes, mode: nat, blob: Option<Bytes>, commit: ObjectId)

  ghost function Members(ids: seq<ObjectId>): set<ObjectId> { set id | id in ids }

  datatype Commit = Commit(tree: ObjectId, parents: seq<ObjectId>)

  const MANIFEST_PATH: Bytes := ".tydence/manifest"
  const TOKENS_PATH: Bytes := ".tydence/tokens"
  const TOKEN_FILE_SUFFIX: Bytes := ".tsr"

  const REGULAR_MODE: nat := 0x81A4    // 0o100644
  const EXECUTABLE_MODE: nat := 0x81ED // 0o100755
  const SYMLINK_MODE: nat := 0xA000    // 0o120000
  const GITLINK_MODE: nat := 0xE000    // 0o160000

  /** The file kind in the upper four mode bits. */
  function ModeKind(mode: nat): nat { mode / 0x1000 % 0x10 }

  predicate IsTreeMode(mode: nat) { ModeKind(mode) == 4 }

  predicate IsBlobMode(mode: nat) { ModeKind(mode) == 8 }

  /** Raw bits, matched exactly: nonstandard historical modes are refused. */
  function DecodeFileMode(mode: nat): Option<FileMode> {
    if mode == REGULAR_MODE then Some(Regular)
    else if mode == EXECUTABLE_MODE then Some(Executable)
    else if mode == SYMLINK_MODE then Some(Symlink)
    else None
  }

  /** `path` lies strictly below the directory `directory`. */
  predicate IsBelow(directory: Bytes, path: Bytes) {
    |path| > |directory| && path[..|directory|] == directory && path[|directory|] == '/'
  }

  /** The stamp's own artifacts: the manifest, and everything below the token
      directory. */
  predicate IsStampArtifact(path: Bytes) {
    path == MANIFEST_PATH || IsBelow(TOKENS_PATH, path)
  }

  // ----- lookups by path -----

  predicate HoldsFile(records: seq<Record>, path: Bytes) {
    exists r | r in records :: !IsTreeMode(r.mode) && r.path == path
  }

  predicate HoldsDirectory(records: seq<Record>, path: Bytes) {
    exists r | r in records :: !IsTreeMode(r.mode) && IsBelow(path, r.path)
  }

  /** `lookup_entry_by_path` finds something: a file or a directory. */
  predicate HoldsEntry(records: seq<Record>, path: Bytes) {
    HoldsFile(records, path) || HoldsDirectory(records, path)
  }

  /** The first file record at a path. */
  function FindFile(records: seq<Record>, path: Bytes): (found: Option<Record>)
    ensures found.Some? <==> HoldsFile(records, path)
    ensures found.Some? ==> found.value in records && !IsTreeMode(found.value.mode) && found.value.path == path
  {
    if records == [] then None
    else if !IsTreeMode(records[0].mode) && records[0].path == path then Some(records[0])
    else
      assert records == [records[0]] + records[1..];
      FindFile(records[1..], path)
  }

  /** A tree git can hold: every file has a non-empty path of its own, and no
      file is also a directory. */
  ghost predicate IsTree(records: seq<Record>) {
    && (forall i | 0 <= i < |records| && !IsTreeMode(records[i].mode) :: records[i].path != [])
    && (forall i, j | 0 <= i < |records| && 0 <= j < |records| && i != j
                      && !IsTreeMode(records[i].mode) && !IsTreeMode(records[j].mode) ::
          records[i].path != records[j].path && !IsBelow(records[i].path, records[j].path))
  }

  lemma FoundIsOnly(records: seq<Record>, record: Record)
    requires IsTree(records) && record in records && !IsTreeMode(record.mode)
    ensures FindFile(records, record.path) == Some(record)
  {
    var found := FindFile(records, record.path).value;
    var i :| 0 <= i < |records| && records[i] == record;
    var j :| 0 <= j < |records| && records[j] == found;
  }

  // ----- paths and modes as git writes them -----

  /** Lying below a directory is starting with its name and a slash. */
  lemma BelowIsPrefix(directory: Bytes, path: Bytes)
    ensures IsBelow(directory, path) <==> directory + "/" <= path
  {
    if directory + "/" <= path {
      var whole := directory + "/";
      assert path[..|whole|] == whole;
      assert path[..|directory|] == whole[..|directory|] == directory;
      assert path[|directory|] == whole[|directory|];
    }
    if IsBelow(directory, path) { assert path[..|directory| + 1] == directory + "/"; }
  }

  /** The stamp's own artifacts by their names. */
  lemma ArtifactsByName(path: Bytes)
    ensures IsStampArtifact(path) <==> path == ".tydence/manifest" || ".tydence/tokens/" <= path
  {
    BelowIsPrefix(TOKENS_PATH, path);
    assert TOKENS_PATH + "/" == ".tydence/tokens/";
  }

  /** The number octal digits spell. */
  function OctalValue(digits: Bytes): nat
    requires forall i | 0 <= i < |digits| :: '0' <= digits[i] <= '7'
  {
    if digits == [] then 0
    else
      var last := |digits| - 1;
      OctalValue(digits[..last]) * 8 + (digits[last] as int - 0x30)
  }

  lemma ModeTextIsOctal(mode: FileMode)
    ensures |ModeText(mode)| == 6 && forall i | 0 <= i < 6 :: '0' <= ModeText(mode)[i] <= '7'
  {
  }

  lemma OctalOfSix(digits: Bytes)
    requires |digits| == 6 && forall i | 0 <= i < 6 :: '0' <= digits[i] <= '7'
    ensures OctalValue(digits) ==
            (digits[0] as int - 0x30) * 0x8000 + (digits[1] as int - 0x30) * 0x1000 + (digits[2] as int - 0x30) * 0x200
            + (digits[3] as int - 0x30) * 0x40 + (digits[4] as int - 0x30) * 8 + (digits[5] as int - 0x30)
  {
    assert digits[..5][..4] == digits[..4] && digits[..4][..3] == digits[..3];
    assert digits[..3][..2] == digits[..2] && digits[..2][..1] == digits[..1] && digits[..1][..0] == [];
    assert OctalValue(digits[..1]) == digits[0] as int - 0x30;
    assert OctalValue(digits[..2]) == OctalValue(digits[..1]) * 8 + (digits[1] as int - 0x30);
    assert OctalValue(digits[..3]) == OctalValue(digits[..2]) * 8 + (digits[2] as int - 0x30);
    assert OctalValue(digits[..4]) == OctalValue(digits[..3]) * 8 + (digits[3] as int - 0x30);
    assert OctalValue(digits[..5]) == OctalValue(digits[..4]) * 8 + (digits[4] as int - 0x30);
  }

  /** Raw mode bits are read as a mode exactly when the mode's written form is
      their octal spelling. */
  lemma FileModeExact(bits: nat, mode: FileMode)
    ensures (forall i | 0 <= i < |ModeText(mode)| :: '0' <= ModeText(mode)[i] <= '7')
            && (DecodeFileMode(bits) == Some(mode) <==> OctalValue(ModeText(mode)) == bits)
  {
    ModeTextIsOctal(mode);
    OctalOfSix(ModeText(mode));
    hide OctalValue;
    match mode {
      case Regular => assert OctalValue(ModeText(mode)) == 0x81A4;
      case Executable => assert OctalValue(ModeText(mode)) == 0x81ED;
      case Symlink => assert OctalValue(ModeText(mode)) == 0xA000;
    }
  }
}
