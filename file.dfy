/** The computed parts of the file service (backend/app/services/system/file.py):
    the extension and stored name of an upload, the record and response it
    produces, and the page arithmetic of the file listing. The random UUIDs the
    service draws are parameters; bytes on disk are not modelled. */
module Files {
  import opened Base
  import opened Text

  // ------------------------------------------------------------------ upload

  /** The piece after the last separator is a suffix of the string, preceded by
      the separator whenever there is more than one piece. */
  lemma LastPiece(s: string, c: char)
    ensures var pieces := Split(s, c); var last := pieces[|pieces| - 1];
      && |last| <= |s| && s[|s| - |last|..] == last
      && (|pieces| == 1 ==> last == s)
      && (|pieces| > 1 ==> |last| < |s| && s[|s| - |last| - 1] == c)
  {
    var pieces := Split(s, c);
    JoinSplit(s, c);
    if |pieces| > 1 {
      var front := Join(pieces[..|pieces| - 1], c);
      var last := pieces[|pieces| - 1];
      JoinLast(pieces, c);
      assert s == front + [c] + last;
      assert s[|s| - |last|..] == last;
      assert s[|s| - |last| - 1] == c;
    }
  }

  /** `filename.split(".")[-1]` when the name holds a '.', else None: the text
      after the last '.', which holds no '.' itself (possibly empty, for "a."). */
  function Extension(filename: string): (ext: Option<string>)
    ensures ext.None? <==> '.' !in filename
    ensures ext.Some? ==>
      && '.' !in ext.value
      && |ext.value| < |filename|
      && filename[|filename| - |ext.value| - 1] == '.'
      && filename[|filename| - |ext.value|..] == ext.value
  {
    var parts := Split(filename, '.');
    CountZero(filename, '.');
    LastPiece(filename, '.');
    if |parts| > 1 then Some(parts[|parts| - 1]) else None
  }

  function Pow16(k: nat): nat
  {
    if k == 0 then 1 else 16 * Pow16(k - 1)
  }

  predicate IsUpperHexDigit(ch: char)
  {
    '0' <= ch <= '9' || 'A' <= ch <= 'F'
  }

  function HexChar(d: nat): (ch: char)
    requires d < 16
    ensures IsUpperHexDigit(ch)
  {
    if d < 10 then ('0' as int + d) as char else ('A' as int + d - 10) as char
  }

  function HexDigitValue(ch: char): nat
    requires IsUpperHexDigit(ch)
  {
    if ch <= '9' then ch as int - '0' as int else ch as int - 'A' as int + 10
  }

  /** `width` upper-case hexadecimal digits of `u`, most significant first. */
  function UpperHex(u: nat, width: nat): (r: string)
    ensures |r| == width
    ensures forall i :: 0 <= i < width ==> IsUpperHexDigit(r[i])
  {
    if width == 0 then "" else UpperHex(u / 16, width - 1) + [HexChar(u % 16)]
  }

  function HexValue(s: string): nat
    requires forall i :: 0 <= i < |s| ==> IsUpperHexDigit(s[i])
  {
    if s == [] then 0 else HexValue(s[..|s| - 1]) * 16 + HexDigitValue(s[|s| - 1])
  }

  /** The digits read back give the number they were written from. */
  lemma {:induction false} HexRoundTrip(u: nat, width: nat)
    requires u < Pow16(width)
    ensures HexValue(UpperHex(u, width)) == u
  {
    if width > 0 {
      var s := UpperHex(u, width);
      HexRoundTrip(u / 16, width - 1);
      assert s[..|s| - 1] == UpperHex(u / 16, width - 1);
      assert HexDigitValue(HexChar(u % 16)) == u % 16;
    }
  }

  /** `str(uuid).replace("-", "").upper()` of a 128-bit UUID value. */
  function UuidHex(uuid: nat): (r: string)
    requires uuid < Pow16(32)
    ensures |r| == 32
    ensures forall i :: 0 <= i < 32 ==> IsUpperHexDigit(r[i])
    ensures HexValue(r) == uuid
  {
    HexRoundTrip(uuid, 32);
    UpperHex(uuid, 32)
  }

  /** The stored name: 32 upper-case hex digits that encode the UUID, then
      "." and the extension only when the extension is non-empty. */
  function StoredName(uuid: nat, ext: Option<string>): (name: string)
    requires uuid < Pow16(32)
    ensures |name| >= 32
    ensures forall i :: 0 <= i < 32 ==> IsUpperHexDigit(name[i])
    ensures HexValue(name[..32]) == uuid
    ensures name[32..] == if ext.Some? && ext.value != "" then "." + ext.value else ""
  {
    var hex := UuidHex(uuid);
    var name := if ext.Some? && ext.value != "" then hex + "." + ext.value else hex;
    assert name[..32] == hex;
    name
  }

  /** Python's `os.path.join(dir, name)` for a relative `name`. */
  function JoinPath(dir: string, name: string): (r: string)
    ensures |dir| + |name| <= |r| <= |dir| + |name| + 1
    ensures r[..|dir|] == dir && r[|r| - |name|..] == name
    ensures dir != "" && dir[|dir| - 1] != '/' ==> |r| == |dir| + |name| + 1 && r[|dir|] == '/'
  {
    if dir == "" || dir[|dir| - 1] == '/' then dir + name else dir + "/" + name
  }

  datatype UploadFile = UploadFile(filename: string, contentType: string)

  /** The fields of the stored file record (the `FileIn` schema); the file size,
      a rounded float, is not modelled. */
  datatype FileRecord = FileRecord(
    id: string, name: string, filePath: string, extendName: Option<string>,
    originalName: string, contentType: string)

  datatype UploadResponse = UploadResponse(id: string, url: string, name: string, originalName: string)

  datatype FileError = FileNotFound

  const DownloadPrefix: string := "/file/download/"

  /** An upload: no file raises FileNotFoundError before anything else;
      otherwise the record stores the file under its UUID name in `fileDir`,
      and the response links to the record's download URL under the original
      name. `uuid` is the draw of `uuid4`, `recordId` the id of the new record. */
  function Upload(file: Option<UploadFile>, fileDir: string, uuid: nat, recordId: string)
    : (r: Result<(FileRecord, UploadResponse), FileError>)
    requires uuid < Pow16(32)
    ensures file.None? <==> r == Err(FileNotFound)
    ensures r.Ok? ==>
      var (rec, resp) := r.value;
      && rec.id == resp.id == recordId
      && rec.name == StoredName(uuid, Extension(file.value.filename))
      && rec.filePath == JoinPath(fileDir, rec.name)
      && rec.extendName == Extension(file.value.filename)
      && rec.originalName == resp.name == resp.originalName == file.value.filename
      && rec.contentType == file.value.contentType
      && resp.url == DownloadPrefix + resp.id
  {
    match file
    case None => Err(FileNotFound)
    case Some(f) =>
      var ext := Extension(f.filename);
      var name := StoredName(uuid, ext);
      var path := JoinPath(fileDir, name);
      var rec := FileRecord(recordId, name, path, ext, f.filename, f.contentType);
      Ok((rec, UploadResponse(rec.id, DownloadPrefix + rec.id, f.filename, f.filename)))
  }

  lemma {:induction false} SplitEndingInSeparator(s: string, c: char)
    ensures var pieces := Split(s + [c], c); |pieces| >= 2 && pieces[|pieces| - 1] == ""
  {
    if s == [] {
      assert Split([c], c) == [""] + Split([], c);
    } else {
      SplitEndingInSeparator(s[1..], c);
      assert (s + [c])[1..] == s[1..] + [c];
    }
  }

  /** A name ending in "." has an empty extension and gets no suffix. */
  lemma TrailingDotGetsNoSuffix(stem: string, uuid: nat)
    requires uuid < Pow16(32)
    ensures Extension(stem + ".") == Some("")
    ensures StoredName(uuid, Extension(stem + ".")) == UuidHex(uuid)
  {
    SplitEndingInSeparator(stem, '.');
  }

  /** A name "stem.ext" with a non-empty extension keeps it after the UUID. */
  lemma ExtensionKept(stem: string, ext: string, uuid: nat)
    requires '.' !in ext && ext != ""
    requires uuid < Pow16(32)
    ensures Extension(stem + "." + ext) == Some(ext)
    ensures StoredName(uuid, Extension(stem + "." + ext)) == UuidHex(uuid) + "." + ext
  {
    var name := stem + "." + ext;
    var e := Extension(name);
    assert name[|name| - |ext| - 1] == '.';
    assert |e.value| == |ext|;
  }

  // ------------------------------------------------------------------ listing

  const MaxPageSize: int := 1000

  /** `min(pageSize, 1000)`: the request's page size, capped at 1000. */
  function PageSize(requested: int): (size: int)
    ensures size <= MaxPageSize
    ensures requested <= MaxPageSize ==> size == requested
    ensures requested > MaxPageSize ==> size == MaxPageSize
  {
    if requested < MaxPageSize then requested else MaxPageSize
  }

  datatype PagingError = ZeroDivision

  /** `int(ceil(float(total) / pageSize))`: the least integer not below the
      exact quotient; a page size of 0 raises ZeroDivisionError. */
  function PageTotal(total: nat, pageSize: int): (r: Result<int, PagingError>)
    ensures pageSize == 0 <==> r.Err?
    ensures pageSize > 0 ==> r.Ok? && (r.value - 1) * pageSize < total <= r.value * pageSize
    ensures pageSize < 0 ==> r.Ok? && r.value * pageSize <= total < (r.value - 1) * pageSize
  {
    if pageSize == 0 then Err(ZeroDivision)
    else if pageSize > 0 then
      var q := -((-(total as int)) / pageSize);
      CeilingPositive(total, pageSize);
      Ok(q)
    else
      var q := -(total / (-pageSize));
      CeilingNegative(total, pageSize);
      Ok(q)
  }

  lemma CeilingPositive(total: nat, d: int)
    requires d > 0
    ensures var q := -((-(total as int)) / d); (q - 1) * d < total <= q * d
  {
    var t: int := -(total as int);
    var f := t / d;
    assert d * f + t % d == t;
    assert 0 <= t % d < d;
    assert (-f - 1) * d == -(f * d) - d;
  }

  lemma CeilingNegative(total: nat, d: int)
    requires d < 0
    ensures var q := -(total / (-d)); q * d <= total < (q - 1) * d
  {
    var e := -d;
    var f := total / e;
    assert e * f + total % e == total;
    assert 0 <= total % e < e;
    assert (-f) * d == f * e;
    assert (-f - 1) * d == f * e + e;
  }

  datatype Paging = Paging(rowTotal: nat, pageSize: int, page: int, pageTotal: int)

  /** The paging block of a file listing for `total` matching rows: the number
      of pages is enough to hold every row at the capped page size. */
  function FileListPaging(total: nat, page: int, requestedSize: int): (r: Result<Paging, PagingError>)
    ensures PageSize(requestedSize) == 0 <==> r.Err?
    ensures r.Ok? ==>
      && r.value.rowTotal == total && r.value.page == page
      && r.value.pageSize == PageSize(requestedSize) && r.value.pageSize <= MaxPageSize
    ensures r.Ok? && r.value.pageSize > 0 ==>
      (r.value.pageTotal - 1) * r.value.pageSize < total <= r.value.pageTotal * r.value.pageSize
  {
    var size := PageSize(requestedSize);
    match PageTotal(total, size)
    case Err(e) => Err(e)
    case Ok(pages) => Ok(Paging(total, size, page, pages))
  }
}
