/** The server side of the gallery (api/index.php): a JSON document
    (meta.json, kept inside the uploads directory) mapping item ids to
    records. Every request reads it whole; upload, update and delete change
    it in memory and write it back, while list only reads it.

    PHP arrays are values, and `process_upload` receives `$meta` by
    reference, so each operation here is a method that takes the decoded
    document (`meta`) and the set of image file names in the uploads
    directory (`dir`) and returns their new values. What the environment decides (the
    ids `uniqid` draws, whether `move_uploaded_file` succeeds, the clock,
    file modification times) arrives as parameters. */
module GalleryApi {
  import opened Wrappers
  import opened Names
  import opened Sorting

  // ---------------------------------------------------------------------
  // Data model

  /** One entry of meta.json. A stored record may lack any field: the list
      and update branches read every field with a default. */
  datatype Record = Record(
    file: Option<string>,
    alt: Option<string>,
    captionText: Option<string>,
    tag: Option<string>,
    createdAt: Option<int>)

  /** The decoded metadata document: item id to record. */
  type Meta = map<string, Record>

  /** The item shape the API returns to clients. */
  datatype PublicItem = PublicItem(
    id: string, src: string, alt: string, captionText: string, tag: string, createdAt: int)

  /** The error answers of the API: 400 "No files", 400 "Missing id",
      404 "Not found". */
  datatype ApiError = NoFiles | MissingId | NotFound

  /** One entry of `$_FILES` after normalisation: its `name` and `error`. */
  datatype UploadFile = UploadFile(name: Option<string>, error: Option<int>)

  /** What the environment decides for one call of `process_upload`: the id
      `uniqid('img_', true)` draws, the suffix `uniqid()` would give a
      fallback file name, whether `move_uploaded_file` succeeds, and the
      clock in milliseconds. */
  datatype UploadEnv = UploadEnv(id: string, unique: string, moved: bool, now: int)

  /** The optional fields of an update request body. */
  datatype Changes = Changes(captionText: Option<string>, tag: Option<string>, alt: Option<string>)

  /** The optional form fields of an upload request. */
  datatype Form = Form(tag: Option<string>, captionText: Option<string>, alt: Option<string>)

  const UploadsUrl := "images/uploads/"
  const DefaultTag := "nature"
  /** The caption prefix exactly as api/index.php:134 spells it (an em dash
      whose UTF-8 bytes were read as Windows-1252). */
  const CaptionPrefix := "New memory \U{E2}\U{20AC}\U{201D} "
  const FallbackPrefix := "file_"
  const DefaultUploadName := "image"
  const UPLOAD_ERR_OK := 0
  const UPLOAD_ERR_NO_FILE := 4
  const AllowedExtensions := ["jpg", "jpeg", "png", "gif", "webp"]

  /** PHP truthiness of a string: only "" and "0" are false. */
  predicate Falsy(s: string) {
    s == "" || s == "0"
  }

  /** PHP's short ternary `$a ?: $b` on strings. */
  function OrElse(a: string, b: string): string {
    if Falsy(a) then b else a
  }

  // ---------------------------------------------------------------------
  // read_meta

  /** `read_meta`: `contents` is what `file_get_contents` returned (None when
      the file is unreadable); `decode` stands for `json_decode($data, true)`
      followed by `is_array`, giving None for anything that is not a PHP
      array (a decoded JSON object or list; a list decodes to a map keyed by
      its positions). */
  function ReadMeta(contents: Option<string>, decode: string -> Option<Meta>): (m: Meta)
    ensures contents.None? || contents == Some("") ==> m == map[]
    ensures contents.Some? && decode(contents.value).None? ==> m == map[]
    ensures m != map[] ==> contents.Some? && contents.value != "" && decode(contents.value) == Some(m)
    ensures contents.Some? && contents.value != "" && decode(contents.value).Some? ==>
              m == decode(contents.value).value
  {
    if contents.None? || contents.value == "" then map[]
    else decode(contents.value).GetOr(map[])
  }

  // ---------------------------------------------------------------------
  // sanitize_filename

  /** The character class `[A-Za-z0-9._-]`. */
  predicate SafeChar(c: char) {
    'A' <= c <= 'Z' || 'a' <= c <= 'z' || '0' <= c <= '9' || c == '.' || c == '_' || c == '-'
  }

  predicate AllSafe(s: string) {
    forall i :: 0 <= i < |s| ==> SafeChar(s[i])
  }

  function SafeOrUnderscore(c: char): char {
    if SafeChar(c) then c else '_'
  }

  /** The number of dots `s` starts with. */
  function LeadingDots(s: string): (n: nat)
    ensures n <= |s|
    ensures forall i :: 0 <= i < n ==> s[i] == '.'
    ensures n < |s| ==> s[n] != '.'
  {
    if s != [] && s[0] == '.' then 1 + LeadingDots(s[1..]) else 0
  }

  /** `ltrim($s, '.')`. */
  function TrimLeadingDots(s: string): (r: string)
    ensures r == [] || r[0] != '.'
  {
    s[LeadingDots(s)..]
  }

  /** The name with unsafe characters replaced and leading dots trimmed,
      before the fallback check. */
  function Cleaned(name: string): (r: string)
    ensures r == [] || r[0] != '.'
  {
    TrimLeadingDots(MapChars(name, SafeOrUnderscore))
  }

  /** Cleaning replaces every unsafe character one for one by `_` and then
      removes the leading dots. */
  lemma CleanedReplacesOneForOne(name: string)
    ensures |Cleaned(name)| <= |name|
    ensures forall i :: 0 <= i < |name| - |Cleaned(name)| ==> name[i] == '.'
    ensures forall i :: 0 <= i < |Cleaned(name)| ==> Cleaned(name)[i] == SafeOrUnderscore(name[|name| - |Cleaned(name)| + i])
  {
    var replaced := MapChars(name, SafeOrUnderscore);
    var n := LeadingDots(replaced);
    assert Cleaned(name) == replaced[n..];
    forall i | 0 <= i < n ensures name[i] == '.' {
      assert replaced[i] == '.' && replaced[i] == SafeOrUnderscore(name[i]);
    }
  }

  /** Cleaning leaves only safe characters. */
  lemma CleanedSafe(name: string)
    ensures AllSafe(Cleaned(name))
  {
    var t := Cleaned(name);
    CleanedReplacesOneForOne(name);
    forall i | 0 <= i < |t| ensures SafeChar(t[i]) {
      assert t[i] == SafeOrUnderscore(name[|name| - |t| + i]);
    }
  }

  /** `sanitize_filename($name)`, with `unique` standing for `uniqid()`: never
      PHP-false, never a dot file, and either the fallback name or made of
      safe characters only. */
  function SanitizeFilename(name: string, unique: string): (r: string)
    ensures !Falsy(r)
    ensures r[0] != '.'
    ensures r == FallbackPrefix + unique || AllSafe(r)
  {
    var t := Cleaned(name);
    CleanedSafe(name);
    if Falsy(t) then FallbackPrefix + unique else t
  }

  /** Unless the fallback is taken, the result is the cleaned name, which
      `CleanedReplacesOneForOne` describes. */
  lemma SanitizeIsCleaned(name: string, unique: string)
    ensures SanitizeFilename(name, unique) != FallbackPrefix + unique ==> SanitizeFilename(name, unique) == Cleaned(name)
    ensures !Falsy(Cleaned(name)) ==> SanitizeFilename(name, unique) == Cleaned(name)
  {
  }

  /** The fallback name is used for the empty name, for names made of dots
      only, and for "0" (which PHP treats as false). */
  lemma SanitizeFallback(name: string, unique: string)
    requires (forall i :: 0 <= i < |name| ==> name[i] == '.') || name == "0"
    ensures SanitizeFilename(name, unique) == FallbackPrefix + unique
  {
    var replaced := MapChars(name, SafeOrUnderscore);
    if name == "0" {
      assert replaced == "0";
    } else {
      assert LeadingDots(replaced) == |replaced|;
    }
  }

  /** A name that is already safe, not a dot file and PHP-true is kept. */
  lemma SanitizeKeepsSafeNames(name: string, unique: string)
    requires AllSafe(name) && !Falsy(name) && name[0] != '.'
    ensures SanitizeFilename(name, unique) == name
  {
    assert MapChars(name, SafeOrUnderscore) == name;
  }

  /** The fallback name is safe when `uniqid` yields safe characters. */
  lemma FallbackSafe(unique: string)
    requires AllSafe(unique)
    ensures AllSafe(FallbackPrefix + unique)
  {
    var r := FallbackPrefix + unique;
    forall i | 0 <= i < |r| ensures SafeChar(r[i]) {
      if i >= |FallbackPrefix| {
        assert r[i] == unique[i - |FallbackPrefix|];
      }
    }
  }

  /** With a `uniqid` made of safe characters even the fallback is safe. */
  lemma SanitizeAllSafe(name: string, unique: string)
    requires AllSafe(unique)
    ensures AllSafe(SanitizeFilename(name, unique))
  {
    if Falsy(Cleaned(name)) {
      FallbackSafe(unique);
    } else {
      CleanedSafe(name);
    }
  }

  /** A sanitised name passes through sanitising again unchanged; so does
      the fallback name when `uniqid` yields safe characters. */
  lemma SanitizeIdempotent(name: string, unique: string, unique2: string)
    requires SanitizeFilename(name, unique) != FallbackPrefix + unique || AllSafe(unique)
    ensures SanitizeFilename(SanitizeFilename(name, unique), unique2) == SanitizeFilename(name, unique)
  {
    var r := SanitizeFilename(name, unique);
    if AllSafe(unique) {
      SanitizeAllSafe(name, unique);
    }
    SanitizeKeepsSafeNames(r, unique2);
  }

  // ---------------------------------------------------------------------
  // allowed_ext

  /** `allowed_ext($ext)`: the lower-cased extension is in the whitelist. */
  predicate AllowedExt(ext: string)
    ensures AllowedExt(ext) ==> 3 <= |ext| <= 4 && '.' !in ext
  {
    Lower(ext) in AllowedExtensions
  }

  /** Lower-casing twice is lower-casing once. */
  lemma LowerIdempotent(s: string)
    ensures Lower(Lower(s)) == Lower(s)
  {
    assert forall i :: 0 <= i < |s| ==> Lower(Lower(s))[i] == Lower(s)[i];
  }

  /** The whitelist ignores case: `jpg`, `JPG` and `JpG` are equally
      allowed, so lower-casing before the check (as `process_upload` does)
      changes nothing. */
  lemma AllowedExtIgnoresCase(a: string, b: string)
    requires Lower(a) == Lower(b)
    ensures AllowedExt(a) <==> AllowedExt(b)
    ensures AllowedExt(a) <==> AllowedExt(Lower(a))
  {
    LowerIdempotent(a);
  }

  // ---------------------------------------------------------------------
  // process_upload

  /** A file that passed the checks of `process_upload`: its sanitised name
      and its lower-cased extension. */
  datatype Admitted = Admitted(original: string, ext: string)

  /** Why `process_upload` returned null before trying to move the file. */
  datatype Rejection = UploadFailed | ExtensionNotAllowed

  /** The file arrived: the entry is present and its error code is
      UPLOAD_ERR_OK (a missing code counts as UPLOAD_ERR_NO_FILE). */
  predicate Received(file: Option<UploadFile>) {
    file.Some? && file.value.error == Some(UPLOAD_ERR_OK)
  }

  /** The checks of `process_upload` up to the move: the upload error, then
      the extension of the sanitised name. */
  function Admit(file: Option<UploadFile>, unique: string): (r: Result<Admitted, Rejection>)
    ensures r == Failure(UploadFailed) <==> !Received(file)
    ensures r.Success? ==> AllowedExt(r.value.ext)
  {
    if file.None? || file.value.error.GetOr(UPLOAD_ERR_NO_FILE) != UPLOAD_ERR_OK then
      assert !Received(file);
      Failure(UploadFailed)
    else
      var original := SanitizeFilename(file.value.name.GetOr(DefaultUploadName), unique);
      var ext := Lower(Extension(original));
      if !AllowedExt(ext) then Failure(ExtensionNotAllowed)
      else Success(Admitted(original, ext))
  }

  /** `uniqid()` yields hexadecimal digits only, so a file whose name
      sanitises to the fallback `file_` + uniqid has no extension and is
      always refused: every all-dot name, "" and "0" is rejected. */
  lemma {:induction false} FallbackRefused(file: Option<UploadFile>, unique: string)
    requires Received(file) && '.' !in unique
    requires Falsy(Cleaned(file.value.name.GetOr(DefaultUploadName)))
    ensures Admit(file, unique) == Failure(ExtensionNotAllowed)
  {
    var original := SanitizeFilename(file.value.name.GetOr(DefaultUploadName), unique);
    assert original == FallbackPrefix + unique;
    FallbackNoDot(unique);
    assert Extension(original) == "";
    assert !AllowedExt(Lower(Extension(original)));
  }

  /** The fallback name has a dot only when uniqid's suffix has one. */
  lemma FallbackNoDot(unique: string)
    requires '.' !in unique
    ensures '.' !in FallbackPrefix + unique
  {
    assert '.' !in FallbackPrefix by {
      assert forall i :: 0 <= i < |FallbackPrefix| ==> FallbackPrefix[i] != '.';
    }
    NoDotConcat(FallbackPrefix, unique);
  }

  lemma NoDotConcat(a: string, b: string)
    requires '.' !in a && '.' !in b
    ensures '.' !in a + b
  {
    forall i | 0 <= i < |a + b| ensures (a + b)[i] != '.' {
      if i < |a| {
        assert (a + b)[i] == a[i];
      } else {
        assert (a + b)[i] == b[i - |a|];
      }
    }
  }

  /** A received file is refused exactly when the extension of its sanitised
      name (its name defaulting to "image") is not whitelisted, in any case;
      otherwise the admitted extension is that extension lower-cased, and the
      sanitised name is its non-empty stem, a dot and the extension. */
  lemma AdmitChecks(file: Option<UploadFile>, unique: string)
    requires Received(file)
    ensures var original := SanitizeFilename(file.value.name.GetOr(DefaultUploadName), unique);
            var r := Admit(file, unique);
            && (r == Failure(ExtensionNotAllowed) <==> !AllowedExt(Extension(original)))
            && (r.Success? ==>
                  && r.value == Admitted(original, Lower(Extension(original)))
                  && StripFinalExtension(original) + "." + Extension(original) == original
                  && StripFinalExtension(original) != "")
  {
    var original := SanitizeFilename(file.value.name.GetOr(DefaultUploadName), unique);
    AllowedExtIgnoresCase(Extension(original), Extension(original));
    StemNonEmpty(original);
  }

  /** The record `process_upload` stores for an admitted file. */
  function NewRecord(a: Admitted, id: string, tag: string, caption: string, alt: string, now: int): (r: Record)
    ensures r.file.Some? && r.alt.Some? && r.captionText.Some? && r.tag.Some? && r.createdAt == Some(now)
    ensures |r.file.value| == |id| + 1 + |a.ext| && r.file.value[..|id|] == id
    ensures r.file == Some(id + "." + a.ext) && !Falsy(r.file.value)
    ensures Falsy(alt) ==> r.alt == Some(StripFinalExtension(a.original))
    ensures Falsy(caption) ==> r.captionText == Some(CaptionPrefix + StripFinalExtension(a.original))
    ensures Falsy(tag) ==> r.tag == Some(DefaultTag)
    ensures !Falsy(alt) ==> r.alt.value == alt
    ensures !Falsy(caption) ==> r.captionText.value == caption
    ensures !Falsy(tag) ==> r.tag.value == tag
    ensures !Falsy(r.captionText.value) && !Falsy(r.tag.value)
  {
    var stem := StripFinalExtension(a.original);
    var file := id + "." + a.ext;
    assert file[|id|] == '.';
    Record(
      Some(file),
      Some(OrElse(alt, stem)),
      Some(OrElse(caption, CaptionPrefix + stem)),
      Some(OrElse(tag, DefaultTag)),
      Some(now))
  }

  /** The public view of a stored record, with the defaults of the update
      and list branches for missing fields. */
  function View(id: string, r: Record, createdAtDefault: int): (p: PublicItem)
    ensures p.id == id && |p.src| >= |UploadsUrl| && p.src[..|UploadsUrl|] == UploadsUrl
    ensures r.file.Some? ==> p.src[|UploadsUrl|..] == r.file.value
    ensures r.file.None? ==> p.src == UploadsUrl
    ensures r.alt.None? ==> p.alt == ""
    ensures r.captionText.None? ==> p.captionText == ""
    ensures r.alt.Some? ==> p.alt == r.alt.value
    ensures r.captionText.Some? ==> p.captionText == r.captionText.value
    ensures r.tag.None? ==> p.tag == DefaultTag
    ensures r.tag.Some? ==> p.tag == r.tag.value
    ensures r.createdAt.None? ==> p.createdAt == createdAtDefault
    ensures r.createdAt.Some? ==> p.createdAt == r.createdAt.value
  {
    PublicItem(
      id,
      UploadsUrl + r.file.GetOr(""),
      r.alt.GetOr(""),
      r.captionText.GetOr(""),
      r.tag.GetOr(DefaultTag),
      r.createdAt.GetOr(createdAtDefault))
  }

  /** What an admitted upload stores: the file is named after the id with the
      lower-cased extension; alt, caption and tag fall back to the stem, the
      caption prefix plus the stem, and "nature"; none of them is empty; and
      the returned view agrees with the stored record. */
  lemma UploadedRecordAgrees(file: Option<UploadFile>, env: UploadEnv, tag: string, caption: string, alt: string, d: int)
    requires Admit(file, env.unique).Success?
    ensures var a := Admit(file, env.unique).value;
            var stem := StripFinalExtension(a.original);
            var rec := NewRecord(a, env.id, tag, caption, alt, env.now);
            && rec.file == Some(env.id + "." + Lower(Extension(a.original)))
            && rec.alt == Some(if Falsy(alt) then stem else alt)
            && (Falsy(alt) ==> rec.alt.value + "." + Extension(a.original) == a.original)
            && rec.captionText == Some(if Falsy(caption) then CaptionPrefix + stem else caption)
            && rec.tag == Some(if Falsy(tag) then DefaultTag else tag)
            && rec.alt.value != "" && rec.captionText.value != "" && rec.tag.value != ""
            && View(env.id, rec, d) == PublicItem(env.id, UploadsUrl + rec.file.value,
                                                  rec.alt.value, rec.captionText.value, rec.tag.value, env.now)
  {
    var a := Admit(file, env.unique).value;
    AdmitChecks(file, env.unique);
    assert |Extension(a.original)| == |a.ext|;
    var rec := NewRecord(a, env.id, tag, caption, alt, env.now);
    assert rec.captionText.value != "" by {
      assert |CaptionPrefix| > 0;
    }
  }

  /** The entry `process_upload` adds to the document: none when the file
      is refused or cannot be moved, otherwise the new record under the id. */
  function Stored(file: Option<UploadFile>, tag: string, caption: string, alt: string, env: UploadEnv): Option<Entry> {
    match Admit(file, env.unique)
    case Failure(_) => None
    case Success(a) => if env.moved then Some(Entry(env.id, NewRecord(a, env.id, tag, caption, alt, env.now))) else None
  }

  /** A file is stored exactly when it is admitted and moved; its entry is
      the new record under the id, naming the file `<id>.<ext>`. */
  lemma StoredWhen(file: Option<UploadFile>, tag: string, caption: string, alt: string, env: UploadEnv)
    ensures Stored(file, tag, caption, alt, env).Some? <==> Admit(file, env.unique).Success? && env.moved
    ensures Stored(file, tag, caption, alt, env).Some? ==>
              var a := Admit(file, env.unique).value;
              && Stored(file, tag, caption, alt, env).value == Entry(env.id, NewRecord(a, env.id, tag, caption, alt, env.now))
              && Stored(file, tag, caption, alt, env).value.record.file == Some(env.id + "." + a.ext)
  {
  }

  /** `process_upload($file, $tag, $caption, $alt, $meta)`: a stored file
      adds its record to the document and its name to the directory, and the
      answer is the record's public view; any other file changes nothing. */
  method ProcessUpload(file: Option<UploadFile>, tag: string, caption: string, alt: string,
                       env: UploadEnv, meta: Meta, dir: set<string>)
    returns (meta': Meta, dir': set<string>, item: Option<PublicItem>)
    ensures var s := Stored(file, tag, caption, alt, env);
            && (s.None? ==> item == None && meta' == meta && dir' == dir)
            && (s.Some? ==> && meta' == meta[s.value.id := s.value.record]
                            && dir' == dir + {s.value.record.file.GetOr("")}
                            && item == Some(View(s.value.id, s.value.record, 0)))
  {
    meta', dir', item := meta, dir, None;
    var admitted := Admit(file, env.unique);
    if admitted.Failure? {
      return;
    }
    var filename := env.id + "." + admitted.value.ext;
    if !env.moved {
      return;
    }
    dir' := dir + {filename};
    var rec := NewRecord(admitted.value, env.id, tag, caption, alt, env.now);
    meta' := meta[env.id := rec];
    item := Some(View(env.id, rec, 0));
  }

  /** Storing an upload's record adds its id and changes no other entry; a
      fresh id makes the document exactly one entry larger. */
  lemma UploadFrame(meta: Meta, id: string, rec: Record)
    ensures meta[id := rec].Keys == meta.Keys + {id}
    ensures forall k :: k in meta && k != id ==> meta[id := rec][k] == meta[k]
    ensures id !in meta ==> |meta[id := rec]| == |meta| + 1 && meta[id := rec] - {id} == meta
  {
    var m := meta[id := rec];
    if id !in meta {
      var d := m - {id};
      assert d.Keys == meta.Keys;
      assert forall k :: k in d ==> d[k] == meta[k];
    }
  }

  // ---------------------------------------------------------------------
  // The upload branch: process_upload for every file of the request

  /** One uploaded file of a request, with what the environment decides for it. */
  datatype Incoming = Incoming(file: Option<UploadFile>, env: UploadEnv)

  /** An entry an upload request adds to the document. */
  datatype Entry = Entry(id: string, record: Record)

  /** The entry stored for one file of a request, with the form's fields
      defaulted as the upload branch does: tag "nature", caption and alt "". */
  function StoredFor(inc: Incoming, form: Form): Option<Entry> {
    Stored(inc.file, form.tag.GetOr(DefaultTag), form.captionText.GetOr(""), form.alt.GetOr(""), inc.env)
  }

  /** The entries an upload request stores, in the order of its files. */
  function NewEntries(incoming: seq<Incoming>, form: Form): (r: seq<Entry>)
    ensures |r| <= |incoming|
  {
    if incoming == [] then []
    else
      var last := incoming[|incoming| - 1];
      var rest := NewEntries(incoming[..|incoming| - 1], form);
      var s := StoredFor(last, form);
      if s.Some? then rest + [s.value] else rest
  }

  /** One more file adds its entry when it is accepted, and nothing otherwise. */
  lemma NewEntriesStep(incoming: seq<Incoming>, i: nat, form: Form)
    requires i < |incoming|
    ensures NewEntries(incoming[..i + 1], form) ==
              var s := StoredFor(incoming[i], form);
              NewEntries(incoming[..i], form) + (if s.Some? then [s.value] else [])
  {
    assert incoming[..i + 1][..i] == incoming[..i];
  }

  /** Storing, naming and viewing one more entry. */
  lemma EntriesSnoc(meta: Meta, entries: seq<Entry>, e: Entry)
    ensures StoreAll(meta, entries + [e]) == StoreAll(meta, entries)[e.id := e.record]
    ensures FileNames(entries + [e]) == FileNames(entries) + {e.record.file.GetOr("")}
    ensures Views(entries + [e]) == Views(entries) + [View(e.id, e.record, 0)]
  {
    assert (entries + [e])[..|entries|] == entries;
  }

  /** The document after storing `entries` one after another. */
  function StoreAll(meta: Meta, entries: seq<Entry>): Meta {
    if entries == [] then meta
    else
      var last := entries[|entries| - 1];
      StoreAll(meta, entries[..|entries| - 1])[last.id := last.record]
  }

  function Ids(entries: seq<Entry>): set<string> {
    set e | e in entries :: e.id
  }

  function FileNames(entries: seq<Entry>): set<string> {
    set e | e in entries :: e.record.file.GetOr("")
  }

  function Views(entries: seq<Entry>): (r: seq<PublicItem>)
    ensures |r| == |entries|
    ensures forall i :: 0 <= i < |entries| ==> r[i] == View(entries[i].id, entries[i].record, 0)
  {
    seq(|entries|, i requires 0 <= i < |entries| => View(entries[i].id, entries[i].record, 0))
  }

  /** Storing entries keeps every other entry and adds exactly their ids. */
  lemma {:induction false} StoreAllFrame(meta: Meta, entries: seq<Entry>)
    ensures StoreAll(meta, entries).Keys == meta.Keys + Ids(entries)
    ensures forall k :: k in meta && k !in Ids(entries) ==> StoreAll(meta, entries)[k] == meta[k]
  {
    if entries != [] {
      var init := entries[..|entries| - 1];
      StoreAllFrame(meta, init);
      assert entries == init + [entries[|entries| - 1]];
      assert Ids(entries) == Ids(init) + {entries[|entries| - 1].id};
    }
  }

  /** With distinct ids, every entry is stored as given. */
  lemma {:induction false} StoreAllStores(meta: Meta, entries: seq<Entry>)
    requires forall i, j :: 0 <= i < j < |entries| ==> entries[i].id != entries[j].id
    ensures forall e :: e in entries ==> e.id in StoreAll(meta, entries) && StoreAll(meta, entries)[e.id] == e.record
  {
    if entries != [] {
      var init := entries[..|entries| - 1];
      var last := entries[|entries| - 1];
      StoreAllStores(meta, init);
      forall e | e in entries
        ensures e.id in StoreAll(meta, entries) && StoreAll(meta, entries)[e.id] == e.record
      {
        if e != last {
          var i :| 0 <= i < |entries| && entries[i] == e;
          assert init[i] == e;
        }
      }
    }
  }

  /** With distinct ids that are new to the document, the document grows by
      one entry per stored file. */
  lemma {:induction false} StoreAllSize(meta: Meta, entries: seq<Entry>)
    requires forall i, j :: 0 <= i < j < |entries| ==> entries[i].id != entries[j].id
    requires forall e :: e in entries ==> e.id !in meta
    ensures |StoreAll(meta, entries)| == |meta| + |entries|
  {
    if entries != [] {
      var init := entries[..|entries| - 1];
      var last := entries[|entries| - 1];
      assert forall e :: e in init ==> e in entries;
      StoreAllSize(meta, init);
      StoreAllFrame(meta, init);
      assert last.id !in Ids(init) by {
        forall e | e in init ensures e.id != last.id {
          var i :| 0 <= i < |init| && init[i] == e;
          assert entries[i] == e;
        }
      }
      assert last.id !in StoreAll(meta, init);
    }
  }

  /** One file of the upload loop: when the request's entries grow by the
      entry of one more file (or by nothing), what `process_upload` does to
      the document, the directory and the answer is what that entry does. */
  lemma UploadStep(meta: Meta, dir: set<string>, prev: seq<Entry>, next: seq<Entry>, s: Option<Entry>,
                   before: Meta, dirBefore: set<string>, after: Meta, dirAfter: set<string>,
                   item: Option<PublicItem>)
    requires next == prev + (if s.Some? then [s.value] else [])
    requires before == StoreAll(meta, prev) && dirBefore == dir + FileNames(prev)
    requires s.None? ==> item == None && after == before && dirAfter == dirBefore
    requires s.Some? ==> && after == before[s.value.id := s.value.record]
                         && dirAfter == dirBefore + {s.value.record.file.GetOr("")}
                         && item == Some(View(s.value.id, s.value.record, 0))
    ensures after == StoreAll(meta, next)
    ensures dirAfter == dir + FileNames(next)
    ensures Views(next) == Views(prev) + (if item.Some? then [item.value] else [])
  {
    if s.Some? {
      EntriesSnoc(meta, prev, s.value);
    } else {
      assert next == prev;
    }
  }

  /** The loop of the upload branch: every file goes through
      `process_upload` in order (tag, caption and alt from the form), and the
      created items are collected. */
  method ProcessAll(incoming: seq<Incoming>, form: Form, meta: Meta, dir: set<string>)
    returns (meta': Meta, dir': set<string>, out: seq<PublicItem>)
    ensures meta' == StoreAll(meta, NewEntries(incoming, form))
    ensures dir' == dir + FileNames(NewEntries(incoming, form))
    ensures out == Views(NewEntries(incoming, form))
  {
    var tag := form.tag.GetOr(DefaultTag);
    var caption := form.captionText.GetOr("");
    var alt := form.alt.GetOr("");
    meta', dir', out := meta, dir, [];
    for i := 0 to |incoming|
      invariant meta' == StoreAll(meta, NewEntries(incoming[..i], form))
      invariant dir' == dir + FileNames(NewEntries(incoming[..i], form))
      invariant out == Views(NewEntries(incoming[..i], form))
    {
      ghost var before, dirBefore := meta', dir';
      var processed;
      meta', dir', processed := ProcessUpload(incoming[i].file, tag, caption, alt, incoming[i].env, meta', dir');
      NewEntriesStep(incoming, i, form);
      UploadStep(meta, dir, NewEntries(incoming[..i], form), NewEntries(incoming[..i + 1], form),
                 StoredFor(incoming[i], form), before, dirBefore, meta', dir', processed);
      if processed.Some? {
        out := out + [processed.value];
      }
    }
    assert incoming[..|incoming|] == incoming;
  }

  /** The upload branch of api/index.php: a request without files is
      answered "No files"; otherwise the answer lists the created items. */
  method Upload(incoming: seq<Incoming>, form: Form, meta: Meta, dir: set<string>)
    returns (meta': Meta, dir': set<string>, r: Result<seq<PublicItem>, ApiError>)
    ensures incoming == [] ==> r == Failure(NoFiles) && meta' == meta && dir' == dir
    ensures incoming != [] ==>
              var entries := NewEntries(incoming, form);
              && r == Success(Views(entries))
              && meta' == StoreAll(meta, entries)
              && dir' == dir + FileNames(entries)
  {
    if incoming == [] {
      return meta, dir, Failure(NoFiles);
    }
    var out;
    meta', dir', out := ProcessAll(incoming, form, meta, dir);
    r := Success(out);
  }

  // ---------------------------------------------------------------------
  // The update branch

  /** The update branch: only the supplied fields among captionText, tag and
      alt change, on the one entry named by `id`. */
  method Update(id: Option<string>, changes: Changes, meta: Meta) returns (meta': Meta, r: Result<PublicItem, ApiError>)
    ensures id.None? || Falsy(id.value) ==> r == Failure(MissingId) && meta' == meta
    ensures id.Some? && !Falsy(id.value) && id.value !in meta ==> r == Failure(NotFound) && meta' == meta
    ensures id.Some? && !Falsy(id.value) && id.value in meta ==>
              && meta'.Keys == meta.Keys
              && (forall k :: k in meta && k != id.value ==> meta'[k] == meta[k])
              && meta'[id.value].file == meta[id.value].file
              && meta'[id.value].createdAt == meta[id.value].createdAt
              && meta'[id.value].captionText == (if changes.captionText.Some? then changes.captionText else meta[id.value].captionText)
              && meta'[id.value].tag == (if changes.tag.Some? then changes.tag else meta[id.value].tag)
              && meta'[id.value].alt == (if changes.alt.Some? then changes.alt else meta[id.value].alt)
              && r == Success(View(id.value, meta'[id.value], 0))
  {
    if id.None? || Falsy(id.value) {
      return meta, Failure(MissingId);
    }
    var key := id.value;
    if key !in meta {
      return meta, Failure(NotFound);
    }
    meta' := meta;
    if changes.captionText.Some? {
      meta' := meta'[key := meta'[key].(captionText := changes.captionText)];
    }
    if changes.tag.Some? {
      meta' := meta'[key := meta'[key].(tag := changes.tag)];
    }
    if changes.alt.Some? {
      meta' := meta'[key := meta'[key].(alt := changes.alt)];
    }
    r := Success(View(key, meta'[key], 0));
  }

  // ---------------------------------------------------------------------
  // The delete branch

  /** The delete branch: removes the entry and unlinks the file it names. */
  method Delete(id: Option<string>, meta: Meta, dir: set<string>)
    returns (meta': Meta, dir': set<string>, r: Result<(), ApiError>)
    ensures id.None? || Falsy(id.value) ==> r == Failure(MissingId) && meta' == meta && dir' == dir
    ensures id.Some? && !Falsy(id.value) && id.value !in meta ==> r == Failure(NotFound) && meta' == meta && dir' == dir
    ensures id.Some? && !Falsy(id.value) && id.value in meta ==>
              && r == Success(())
              && meta' == meta - {id.value}
              && dir' == (var f := meta[id.value].file.GetOr(""); if Falsy(f) then dir else dir - {f})
  {
    if id.None? || Falsy(id.value) {
      return meta, dir, Failure(MissingId);
    }
    var key := id.value;
    if key !in meta {
      return meta, dir, Failure(NotFound);
    }
    var file := meta[key].file.GetOr("");
    dir' := dir;
    if !Falsy(file) && file in dir {
      dir' := dir - {file};
    }
    meta' := meta - {key};
    r := Success(());
  }

  // ---------------------------------------------------------------------
  // The list branch

  /** An entry is listed when it names a file (PHP-truthy) that exists. */
  predicate Visible(rec: Record, dir: set<string>)
    ensures Visible(rec, dir) <==> rec.file.GetOr("") in dir && !Falsy(rec.file.GetOr(""))
  {
    rec.file.Some? && !Falsy(rec.file.value) && rec.file.value in dir
  }

  /** The listed view of an entry: a missing createdAt falls back to the
      file's modification time (seconds, from `mtime`) in milliseconds. */
  function Listing(id: string, rec: Record, mtime: string -> int): (p: PublicItem)
    ensures p.id == id && p.src == UploadsUrl + rec.file.GetOr("")
    ensures rec.createdAt.None? ==> p.createdAt == mtime(rec.file.GetOr("")) * 1000
    ensures rec.createdAt.Some? ==> p.createdAt == rec.createdAt.value
  {
    View(id, rec, mtime(rec.file.GetOr("")) * 1000)
  }

  /** `p` is the listed view of a visible entry of the document. */
  ghost predicate Listed(meta: Meta, dir: set<string>, mtime: string -> int, p: PublicItem) {
    p.id in meta && Visible(meta[p.id], dir) && p == Listing(p.id, meta[p.id], mtime)
  }

  function CreatedAt(p: PublicItem): int {
    p.createdAt
  }

  /** The list branch: every visible entry exactly once, newest first. */
  method List(meta: Meta, dir: set<string>, mtime: string -> int) returns (items: seq<PublicItem>)
    ensures forall p :: p in items <==> Listed(meta, dir, mtime, p)
    ensures forall i, j :: 0 <= i < j < |items| ==> items[i].id != items[j].id
    ensures SortedDesc(items, CreatedAt)
  {
    var unsorted: seq<PublicItem> := [];
    var keys := meta.Keys;
    while keys != {}
      invariant keys <= meta.Keys
      invariant forall p :: p in unsorted <==> p.id !in keys && Listed(meta, dir, mtime, p)
      invariant NoDuplicates(unsorted)
      decreases keys
    {
      var id :| id in keys;
      var rec := meta[id];
      if Visible(rec, dir) {
        unsorted := unsorted + [Listing(id, rec, mtime)];
      }
      keys := keys - {id};
    }
    items := SortDesc(unsorted, CreatedAt);
    PermutationNoDuplicates(unsorted, items);
    assert forall p :: p in items <==> p in multiset(items);
    assert forall p :: p in unsorted <==> p in multiset(unsorted);
  }

  // ---------------------------------------------------------------------
  // Round trips between the branches

  /** A record stored with its creation time, naming a file that has just
      been written, is listed with the view an upload returns. */
  lemma StoredRecordListed(meta: Meta, dir: set<string>, mtime: string -> int, id: string, rec: Record)
    requires rec.file.Some? && !Falsy(rec.file.value) && rec.createdAt.Some?
    ensures Listed(meta[id := rec], dir + {rec.file.value}, mtime, View(id, rec, 0))
  {
  }

  /** An item returned by an upload is in the next listing. */
  method UploadThenList(file: Option<UploadFile>, tag: string, caption: string, alt: string,
                        env: UploadEnv, meta: Meta, dir: set<string>, mtime: string -> int)
    returns (item: Option<PublicItem>, items: seq<PublicItem>)
    ensures Admit(file, env.unique).Success? && env.moved <==> item.Some?
    ensures item.Some? ==> item.value in items
  {
    var meta', dir';
    meta', dir', item := ProcessUpload(file, tag, caption, alt, env, meta, dir);
    items := List(meta', dir', mtime);
    if item.Some? {
      ghost var a := Admit(file, env.unique).value;
      ghost var rec := NewRecord(a, env.id, tag, caption, alt, env.now);
      assert meta' == meta[env.id := rec];
      assert dir' == dir + {rec.file.value};
      StoredRecordListed(meta, dir, mtime, env.id, rec);
    }
  }

  /** After an update that sets the caption of a listed entry, the next
      listing shows the new caption. */
  method UpdateThenList(id: string, caption: string, meta: Meta, dir: set<string>, mtime: string -> int)
    returns (r: Result<PublicItem, ApiError>, items: seq<PublicItem>)
    requires !Falsy(id) && id in meta && Visible(meta[id], dir)
    ensures r.Success? && r.value.captionText == caption
    ensures exists p :: p in items && p.id == id && p.captionText == caption
  {
    var meta';
    meta', r := Update(Some(id), Changes(Some(caption), None, None), meta);
    items := List(meta', dir, mtime);
    assert Listed(meta', dir, mtime, Listing(id, meta'[id], mtime));
  }

  /** A delete removes the entry from the listing, and deleting it again
      answers "Not found". */
  method DeleteTwice(id: string, meta: Meta, dir: set<string>, mtime: string -> int)
    returns (first: Result<(), ApiError>, second: Result<(), ApiError>, items: seq<PublicItem>)
    requires !Falsy(id) && id in meta
    ensures first == Success(()) && second == Failure(NotFound)
    ensures forall p :: p in items ==> p.id != id
  {
    var meta', dir';
    meta', dir', first := Delete(Some(id), meta, dir);
    items := List(meta', dir', mtime);
    meta', dir', second := Delete(Some(id), meta', dir');
  }
}
