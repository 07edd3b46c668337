/** `metadata` of the SSH filesystem handler: the reply derived from one SFTP stat. */
module MetadataQuery {
  import opened Io
  import opened Remote

  /** The reply. `unix` carries the mode bits as reported; creation time and Windows
      attributes are never known over SFTP. */
  datatype Metadata = Metadata(
    canonicalizedPath: Option<Path>,
    fileType: FileType,
    len: nat,
    readonly: bool,
    accessed: Option<nat>,
    modified: Option<nat>,
    created: Option<nat>,
    unix: Option<Permissions>)

  /** Read-only unless the owner, the group or others may write; read-only when the server
      reports no mode bits. */
  function ReadOnly(p: Option<Permissions>): bool {
    match p
    case None => true
    case Some(x) => !x.ownerWrite && !x.groupWrite && !x.otherWrite
  }

  /** The stat the reply is built from: symlinks are followed only when `resolveFileType`. */
  function StatOf(sftp: Sftp, path: Path, resolveFileType: bool): Result<Stat> {
    if resolveFileType then sftp.metadata(path) else sftp.symlinkMetadata(path)
  }

  function FromStat(canonical: Option<Path>, st: Stat): Metadata {
    Metadata(canonical, TypeOf(st.kind), st.size.GetOr(0), ReadOnly(st.permissions),
             st.accessed, st.modified, None, st.permissions)
  }

  /** `metadata`: canonicalize first when asked (its error is returned as is), then stat the
      path as given, mapping a failure through `to_other_error`. The call succeeds exactly when
      both steps do. The file type is `Dir` for a directory, `File` for a regular file and
      `Symlink` for anything else; the length defaults to 0; the read-only flag agrees with the
      reported mode bits, in both directions. */
  function MetadataOf(sftp: Sftp, path: Path, canonicalize: bool, resolveFileType: bool): (r: Result<Metadata>)
    ensures r.Ok? <==> (!canonicalize || sftp.canonicalize(path).Ok?) && StatOf(sftp, path, resolveFileType).Ok?
    ensures canonicalize && sftp.canonicalize(path).Err? ==> r == Err(sftp.canonicalize(path).error)
    ensures (!canonicalize || sftp.canonicalize(path).Ok?) && StatOf(sftp, path, resolveFileType).Err? ==>
      r == Err(IoError(Other, StatOf(sftp, path, resolveFileType).error.message))
    ensures r.Ok? ==> (r.value.canonicalizedPath.Some? <==> canonicalize)
    ensures r.Ok? && canonicalize ==> r.value.canonicalizedPath == Some(sftp.canonicalize(path).value)
    ensures r.Ok? ==>
      var st := StatOf(sftp, path, resolveFileType).value;
      (r.value.fileType == Dir <==> st.kind == DirKind) &&
      (r.value.fileType == File <==> st.kind == FileKind) &&
      (r.value.fileType == Symlink <==> st.kind != DirKind && st.kind != FileKind) &&
      (st.size.Some? ==> r.value.len == st.size.value) && (st.size.None? ==> r.value.len == 0) &&
      r.value.unix == st.permissions && r.value.accessed == st.accessed && r.value.modified == st.modified &&
      r.value.created.None?
    ensures r.Ok? ==>
      (!r.value.readonly <==>
        r.value.unix.Some? && (r.value.unix.value.ownerWrite || r.value.unix.value.groupWrite || r.value.unix.value.otherWrite))
  {
    var canonical :=
      if canonicalize then
        match sftp.canonicalize(path)
        case Err(e) => Err(e)
        case Ok(p) => Ok(Some(p))
      else Ok(None);
    match canonical
    case Err(e) => Err(e)
    case Ok(c) =>
      match StatOf(sftp, path, resolveFileType)
      case Err(x) => Err(ToOther(x))
      case Ok(st) => Ok(FromStat(c, st))
  }
}
