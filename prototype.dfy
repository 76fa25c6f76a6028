/** The prototype front end src/main.rs: its own `XBEWriter::apply_patch`,
    which writes with a single `write` call, and the name rule of
    `backup_file`. Its `parse_args` is the one of module `ArgParsing`. */
module Prototype {
  import opened Common
  import opened MemoryMapping
  import opened Patching
  import opened XbeWriting

  /** `GamePatch`: a patch with a display name. Its offset type has the same
      two variants as `PatchOffsetType`. */
  datatype GamePatch = GamePatch(
    name: string,
    offset: u32,
    offsetType: PatchOffsetType,
    replacementBytes: seq<u8>,
    originalBytes: Option<seq<u8>>)

  /** The patch without its name: the offset is found as in core/src/xbe.rs
      (`TargetOffset`), the two `apply_patch` functions dispatching on the
      offset type the same way. */
  function AsPatch(p: GamePatch): Patch
  {
    Patch(p.offset, p.offsetType, p.replacementBytes, p.originalBytes)
  }

  class PrototypeWriter {
    var contents: seq<u8>
    var memMap: MemoryMap

    constructor (contents: seq<u8>, memMap: MemoryMap)
      ensures this.contents == contents && this.memMap == memMap
    {
      this.contents := contents;
      this.memMap := memMap;
    }

    /** `apply_patch` of the prototype: a translation error returns before
        anything is written; otherwise one `write` call, which may accept
        only the first `accepted` bytes (the operating system decides), and
        the result is `Ok` either way. */
    method ApplyPatch(p: GamePatch, accepted: nat) returns (r: Result<(), MapError>)
      requires accepted <= |p.replacementBytes|
      modifies this`contents
      ensures TargetOffset(memMap, AsPatch(p)).Err? ==>
        r == Err(TargetOffset(memMap, AsPatch(p)).error) && contents == old(contents)
      ensures TargetOffset(memMap, AsPatch(p)).Ok? ==>
        r.Ok? && contents == Overwrite(old(contents), TargetOffset(memMap, AsPatch(p)).value, p.replacementBytes[..accepted])
    {
      var offset: u32;
      match p.offsetType {
        case Raw =>
          offset := p.offset;
        case Virtual =>
          var t := GetRawOffset(memMap, p.offset);
          if t.Err? {
            return Err(t.error);
          }
          offset := t.value;
      }
      contents := Overwrite(contents, offset, p.replacementBytes[..accepted]);
      r := Ok(());
    }
  }

  /** A short `write` is reported as success although the patch is not in
      the file: the byte right after the accepted prefix still holds its old
      value. `write_all` of core/src/xbe.rs (`XbeWriter.ApplyPatch`) writes
      every byte. */
  lemma ShortWriteLeavesPatchIncomplete(f: seq<u8>, off: nat, data: seq<u8>, accepted: nat)
    requires accepted < |data| && off + |data| <= |f|
    requires data[accepted] != f[off + accepted]
    ensures Overwrite(f, off, data[..accepted]) != Overwrite(f, off, data)
    ensures Overwrite(f, off, data[..accepted])[off + accepted] == f[off + accepted]
  {
    var short := Overwrite(f, off, data[..accepted]);
    var full := Overwrite(f, off, data);
    assert |short| == |f|;
    assert short[off + accepted] == f[off + accepted];
    assert full[off + accepted] == data[accepted];
  }

  /** A path as its components. */
  datatype Component = RootDir | CurDir | ParentDir | Normal(name: string)

  type Path = seq<Component>

  /** `Path::file_name`: the last component when it is a normal name. */
  function FileName(p: Path): (r: Option<string>)
    ensures r.Some? <==> |p| > 0 && p[|p| - 1].Normal?
    ensures r.Some? ==> p[|p| - 1] == Normal(r.value)
  {
    if |p| > 0 && p[|p| - 1].Normal? then Some(p[|p| - 1].name) else None
  }

  datatype IoErrorKind = InvalidInput

  /** The name rule of `backup_file`: a copy of the path whose file name
      gets `.bak` appended (`set_file_name` drops the old name and pushes
      the new one). Whether the backup exists and the copy itself are not
      part of this rule. */
  method BackupFile(filepath: Path) returns (r: Result<Path, IoErrorKind>)
    ensures FileName(filepath).None? ==> r == Err(InvalidInput)
    ensures FileName(filepath).Some? ==> r.Ok?
    ensures r.Ok? ==> |r.value| == |filepath| && r.value[..|r.value| - 1] == filepath[..|filepath| - 1]
    ensures r.Ok? ==> FileName(r.value) == Some(FileName(filepath).value + ".bak")
    ensures r.Ok? ==> r.value != filepath
  {
    var newFilepath := filepath;
    var filename := FileName(filepath);
    if filename.Some? {
      var backupName := filename.value;
      backupName := backupName + ".bak";
      newFilepath := newFilepath[..|newFilepath| - 1];
      newFilepath := newFilepath + [Normal(backupName)];
      assert |backupName| == |filename.value| + 4;
      assert newFilepath[|newFilepath| - 1] != filepath[|filepath| - 1];
      r := Ok(newFilepath);
    } else {
      r := Err(InvalidInput);
    }
  }
}
