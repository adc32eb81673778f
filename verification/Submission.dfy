/** A submission's content: stored inline or spilled to file storage, read back,
    saved under three CHECK constraints, and cleared by a purge. */
module Submissions {
  import opened Wrappers
  import opened Utf8
  import opened Retention
  import Strings

  const NO_FILE := ""

  /** SUBMISSION_INLINE_MAX_BYTES unless the settings say otherwise. */
  const DEFAULT_INLINE_MAX := 262144

  type Files = map<string, Bytes>

  /** An uploaded file: its bytes and the size attribute it reports, or 0. */
  datatype Upload = Upload(data: Bytes, reported: nat)

  datatype SetError = BothGiven | NoneGiven | BlankText | NotEncodable
  datatype ReadError = Oversize | Unreadable

  // ---- the CHECK constraints -----------------------------------------------------------

  /** submission_content_present */
  predicate ContentPresent(f: Fields) {
    f.purgedAt.Some? || f.content != [] || f.file != NO_FILE
  }

  /** submission_content_not_both */
  predicate NotBoth(f: Fields) {
    !(f.content != [] && f.file != NO_FILE)
  }

  /** submission_purged_content_cleared; a FileField without a file is stored
      as the empty string. */
  predicate PurgedCleared(f: Fields) {
    f.purgedAt.None? || (f.content == [] && f.file == NO_FILE)
  }

  predicate Accepted(f: Fields) {
    ContentPresent(f) && NotBoth(f) && PurgedCleared(f)
  }

  // ---- setting content -------------------------------------------------------------------

  predicate Blank(s: Text) {
    forall i | 0 <= i < |s| :: Strings.Whitespace(s[i])
  }

  /** FieldFile.delete under suppress(Exception): a missing file is no error,
      and a failing storage leaves the old file behind. */
  function DropFile(files: Files, name: string, deleteFails: bool): Files {
    if name == NO_FILE || deleteFails then files else files - {name}
  }

  function SetProblem(inline: Option<Text>, upload: Option<Upload>): Option<SetError> {
    if inline.Some? && upload.Some? then Some(BothGiven)
    else if inline.None? && upload.None? then Some(NoneGiven)
    else if inline.Some? && Blank(inline.value) then Some(BlankText)
    else if inline.Some? && Encode(inline.value).None? then Some(NotEncodable)
    else None
  }

  /** A submission and the file storage it uses. The storage picks names that
      are free; digest stands for SHA-256. */
  class Submission {
    var fields: Fields
    var stored: Option<Fields>
    var files: Files
    const digest: Bytes -> string

    constructor (policy: string, initialFiles: Files, sha256: Bytes -> string)
      ensures fields == Fields([], NO_FILE, 0, "", "", policy, None, None)
      ensures stored == None && files == initialFiles && digest == sha256
    {
      fields := Fields([], NO_FILE, 0, "", "", policy, None, None);
      stored, files, digest := None, initialFiles, sha256;
    }

    method SetContent(inline: Option<Text>, upload: Option<Upload>, limit: Option<int>, setting: int,
                      name: string, deleteFails: bool)
      returns (error: Option<SetError>)
      requires name != NO_FILE && name !in files
      modifies this
      ensures error == SetProblem(inline, upload) && stored == old(stored)
      ensures error == Some(BothGiven) <==> inline.Some? && upload.Some?
      ensures error == Some(NoneGiven) <==> inline.None? && upload.None?
      ensures error == Some(BlankText) <==>
                upload.None? && inline.Some?
                && forall i | 0 <= i < |inline.value| :: Strings.Whitespace(inline.value[i])
      ensures error == Some(NotEncodable) <==>
                upload.None? && inline.Some? && !Encodable(inline.value) && !Blank(inline.value)
      ensures error.Some? ==> fields == old(fields) && files == old(files)
      ensures error.None? ==>
                && fields == old(fields).(content := fields.content, file := fields.file, size := fields.size,
                    checksum := fields.checksum)
                && (fields.content == [] <==> fields.file == name) && (fields.content != [] <==> fields.file == NO_FILE)
      ensures error.None? && inline.Some? ==>
                var data := EncodeAll(inline.value);
                && fields.size == |data| && fields.checksum == digest(data)
                && (fields.content != [] <==>
                    |data| <= if limit.Some? && limit.value != 0 then limit.value else setting)
                && (fields.content != [] ==> fields.content == inline.value)
                && (fields.content == [] ==> name in files && files[name] == data)
      ensures error.None? && upload.Some? ==>
                && fields.content == [] && fields.checksum == ""
                && name in files && files[name] == upload.value.data
                && fields.size == if upload.value.reported != 0 then upload.value.reported else |upload.value.data|
      ensures forall n | n in old(files) && n != old(fields.file) :: n in files && files[n] == old(files[n])
      ensures forall n | n in files && n != name :: n in old(files) && files[n] == old(files[n])
      ensures error.None? && old(fields.file) !in {NO_FILE, name} ==>
                (old(fields.file) in files <==> deleteFails && old(fields.file) in old(files))
    {
      var inlineMax := if limit.Some? && limit.value != 0 then limit.value else setting;
      if inline.Some? && upload.Some? {
        return Some(BothGiven);
      }
      if inline.None? && upload.None? {
        return Some(NoneGiven);
      }
      error := None;
      if inline.Some? {
        var text := inline.value;
        if Blank(text) {
          return Some(BlankText);
        }
        var encoded := Encode(text);
        if encoded.None? {
          return Some(NotEncodable);
        }
        var data := encoded.value;
        fields := fields.(size := |data|, checksum := digest(data));
        if |data| <= inlineMax {
          fields := fields.(content := text);
          files := DropFile(files, fields.file, deleteFails);
          fields := fields.(file := NO_FILE);
        } else {
          fields := fields.(content := []);
          files := DropFile(files, fields.file, deleteFails);
          files := files[name := data];
          fields := fields.(file := name);
        }
      }
      if upload.Some? {
        fields := fields.(content := []);
        files := DropFile(files, fields.file, deleteFails);
        files := files[name := upload.value.data];
        fields := fields.(file := name, size := upload.value.reported);
        if fields.size == 0 {
          fields := fields.(size := |files[name]|);
        }
        fields := fields.(checksum := "");
      }
    }

    /** A full save. The backfilled checksum stays blank when the file cannot
        be read; the database refuses a row that breaks a constraint. */
    method Save(now: int, readFails: bool) returns (ok: bool)
      modifies this
      ensures fields == Prepared(old(fields), old(stored), files, readFails, digest, now)
      ensures ok == Accepted(old(fields)) && files == old(files)
      ensures stored == if ok then Some(fields) else old(stored)
    {
      if fields.file != NO_FILE && fields.checksum == "" {
        if fields.file in files && !readFails {
          fields := fields.(checksum := digest(files[fields.file]));
        }
      }
      SyncRetentionExpiry(now);
      ok := Accepted(fields);
      if ok {
        stored := Some(fields);
      }
    }

    method SyncRetentionExpiry(now: int)
      modifies this
      ensures fields == Synced(old(fields), stored, now)
      ensures stored == old(stored) && files == old(files)
    {
      if fields.purgedAt.Some? {
        if fields.expiresAt.Some? {
          fields := fields.(expiresAt := None);
        }
        return;
      }
      if !Known(fields.policy) {
        fields := fields.(policy := DO_NOT_STORE);
      }
      var period := Period(fields.policy);
      if period.None? || period.value <= 0 {
        if fields.expiresAt.Some? {
          fields := fields.(expiresAt := None);
        }
        return;
      }
      var setExpiry := stored.None? || fields.expiresAt.None?;
      if !setExpiry {
        setExpiry := stored.value.policy != fields.policy;
      }
      if setExpiry {
        fields := fields.(expiresAt := Some(now + period.value));
      }
    }

    method GetContent() returns (s: Text)
      ensures s == ContentOf(fields, files)
      ensures s == if fields.purgedAt.Some? then []
                   else if fields.content != [] then fields.content
                   else if fields.file in files && fields.file != NO_FILE then DecodeReplace(files[fields.file])
                   else []
    {
      if fields.purgedAt.Some? {
        return [];
      }
      if fields.content != [] {
        return fields.content;
      }
      if fields.file != NO_FILE && fields.file in files {
        return DecodeReplace(files[fields.file]);
      }
      return [];
    }

    method ReadBytes(maxBytes: Option<int>) returns (r: Result<Bytes, ReadError>)
      ensures r == BytesOf(fields, files, maxBytes)
      ensures fields.purgedAt.Some? || (fields.content == [] && fields.file == NO_FILE) ==> r == Ok([])
      ensures fields.purgedAt.None? && fields.content == [] && fields.file != NO_FILE && fields.file in files ==>
                r == if maxBytes.None? || |files[fields.file]| <= maxBytes.value then Ok(files[fields.file])
                     else Err(Oversize)
      ensures fields.purgedAt.None? && fields.content == [] && fields.file != NO_FILE && fields.file !in files ==>
                r == Err(Unreadable)
      ensures fields.purgedAt.None? && fields.content != [] && !Encodable(fields.content) ==> r == Err(Unreadable)
    {
      if fields.purgedAt.Some? {
        return Ok([]);
      }
      if fields.content != [] {
        var data := Encode(fields.content);
        if data.None? {
          return Err(Unreadable);
        }
        if maxBytes.Some? && |data.value| > maxBytes.value {
          return Err(Oversize);
        }
        return Ok(data.value);
      }
      if fields.file == NO_FILE {
        return Ok([]);
      }
      if fields.file !in files {
        return Err(Unreadable);
      }
      var data := if maxBytes.None? then files[fields.file] else ReadUpTo(files[fields.file], maxBytes.value + 1);
      if maxBytes.Some? && |data| > maxBytes.value {
        return Err(Oversize);
      }
      return Ok(data);
    }
  }

  // ---- what the methods compute ------------------------------------------------------------

  function Prepared(f: Fields, stored: Option<Fields>, files: Files, readFails: bool, digest: Bytes -> string,
      now: int): Fields {
    var backfill := f.file != NO_FILE && f.checksum == "" && f.file in files && !readFails;
    Synced(if backfill then f.(checksum := digest(files[f.file])) else f, stored, now)
  }

  /** read(n): at most n bytes; everything for a negative n. */
  function ReadUpTo(data: Bytes, n: int): Bytes {
    if 0 <= n < |data| then data[..n] else data
  }

  function ContentOf(f: Fields, files: Files): Text {
    if f.purgedAt.Some? then []
    else if f.content != [] then f.content
    else if f.file != NO_FILE && f.file in files then DecodeReplace(files[f.file])
    else []
  }

  function BytesOf(f: Fields, files: Files, maxBytes: Option<int>): Result<Bytes, ReadError> {
    if f.purgedAt.Some? then Ok([])
    else if f.content != [] then
      var data := Encode(f.content);
      if data.None? then Err(Unreadable) else Bounded(data.value, maxBytes)
    else if f.file == NO_FILE then Ok([])
    else if f.file !in files then Err(Unreadable)
    else Bounded(files[f.file], maxBytes)
  }

  /** The data when it fits, an error otherwise. */
  function Bounded(data: Bytes, maxBytes: Option<int>): Result<Bytes, ReadError> {
    if maxBytes.Some? && |data| > maxBytes.value then Err(Oversize) else Ok(data)
  }

  // ---- storage choice is unobservable ---------------------------------------------------------

  /** Content stored inline and content spilled to a file read back alike. */
  predicate Holds(f: Fields, files: Files, text: Text) {
    && Encodable(text) && text != [] && f.purgedAt.None?
    && (f.content == text || (f.content == [] && f.file != NO_FILE && f.file in files
        && files[f.file] == EncodeAll(text)))
  }

  lemma StorageIsUnobservable(f: Fields, files: Files, text: Text, maxBytes: Option<int>)
    requires Holds(f, files, text)
    ensures ContentOf(f, files) == text
    ensures BytesOf(f, files, None) == Ok(EncodeAll(text))
    ensures BytesOf(f, files, maxBytes) == if maxBytes.Some? && |EncodeAll(text)| > maxBytes.value then Err(Oversize)
              else Ok(EncodeAll(text))
  {
    hide EncodeAll, DecodeReplace, Decode;
    DecodeOfEncode(text);
  }

  /** Setting inline text and reading it back, before and after a save and a
      reload: the text, its bytes, their number and their digest, whatever
      the threshold. */
  method SetThenRead(s: Submission, text: Text, limit: Option<int>, setting: int, name: string, deleteFails: bool,
                     now: int, readFails: bool, maxBytes: Option<int>)
    returns (before: Text, after: Text, bytes: Result<Bytes, ReadError>, bounded: Result<Bytes, ReadError>)
    requires s.fields.purgedAt.None? && Encodable(text) && !Blank(text)
    requires name != NO_FILE && name !in s.files
    modifies s
    ensures before == after == text && bytes == Ok(EncodeAll(text))
    ensures bounded == if maxBytes.Some? && |EncodeAll(text)| > maxBytes.value then Err(Oversize)
              else Ok(EncodeAll(text))
    ensures s.fields.size == |EncodeAll(text)| && s.fields.checksum == s.digest(EncodeAll(text))
              && s.stored == Some(s.fields)
  {
    hide EncodeAll, DecodeReplace, BytesOf, ContentOf;
    var error := s.SetContent(Some(text), None, limit, setting, name, deleteFails);
    StorageIsUnobservable(s.fields, s.files, text, maxBytes);
    before := s.GetContent();
    var ok := s.Save(now, readFails);
    s.fields := s.stored.value;
    StorageIsUnobservable(s.fields, s.files, text, maxBytes);
    after := s.GetContent();
    bytes := s.ReadBytes(None);
    bounded := s.ReadBytes(maxBytes);
  }

  /** An upload saved without a read fault: its bytes, size and digest. */
  method UploadThenRead(s: Submission, upload: Upload, name: string, deleteFails: bool, now: int)
    returns (bytes: Result<Bytes, ReadError>)
    requires s.fields.purgedAt.None? && upload.reported in {0, |upload.data|}
    requires name != NO_FILE && name !in s.files
    modifies s
    ensures bytes == Ok(upload.data)
    ensures s.fields.size == |upload.data| && s.fields.checksum == s.digest(upload.data) && s.stored == Some(s.fields)
  {
    var error := s.SetContent(None, Some(upload), None, DEFAULT_INLINE_MAX, name, deleteFails);
    var ok := s.Save(now, false);
    bytes := s.ReadBytes(None);
  }
}
