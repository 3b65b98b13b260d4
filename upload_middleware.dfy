/**
 * The upload filter shared by the product and chat upload routes: a file
 * passes when its lower-cased extension and its declared mimetype each
 * contain one of the allowed words, and it is at most 50,000,000 bytes.
 */
module UploadMiddleware {
  import opened Wrappers
  import opened Strings

  /** `limits: {fileSize: 50000000}` */
  const MaxUploadBytes: nat := 50000000

  /** Index of the last '.' of `name`, if any. */
  function LastDot(name: string): (r: Option<nat>)
    ensures r.Some? ==> r.value < |name| && name[r.value] == '.'
    ensures r.Some? ==> forall j :: r.value < j < |name| ==> name[j] != '.'
    ensures r.None? ==> Free(name, '.')
    decreases |name|
  {
    if |name| == 0 then None
    else if name[|name| - 1] == '.' then Some(|name| - 1)
    else LastDot(name[..|name| - 1])
  }

  /** `path.extname(name)`: the suffix from the last '.', or "" when there is none. */
  function ExtName(name: string): (r: string)
    ensures EndsWith(name, r)
    ensures r == "" <==> Free(name, '.')
    ensures r != "" ==> r[0] == '.' && Free(r[1..], '.')
  {
    match LastDot(name)
      case None => ""
      case Some(i) =>
        var r := name[i..];
        assert name[|name| - |r|..] == r;
        r
  }

  /** `/jpeg|jpg|png|gif|mp4|webm|ogg/.test(ext)` */
  predicate ExtAllowed(ext: string) {
    Contains(ext, "jpeg") || Contains(ext, "jpg") || Contains(ext, "png") || Contains(ext, "gif")
    || Contains(ext, "mp4") || Contains(ext, "webm") || Contains(ext, "ogg")
  }

  /** `/jpeg|jpg|png|gif|video\/mp4|video\/webm|video\/ogg/.test(mime)`; the mimetype is not lower-cased. */
  predicate MimeAllowed(mime: string) {
    Contains(mime, "jpeg") || Contains(mime, "jpg") || Contains(mime, "png") || Contains(mime, "gif")
    || Contains(mime, "video/mp4") || Contains(mime, "video/webm") || Contains(mime, "video/ogg")
  }

  /** `checkFileType`: both tests must pass. */
  predicate CheckFileType(originalName: string, mime: string) {
    ExtAllowed(ToLower(ExtName(originalName))) && MimeAllowed(mime)
  }

  /** Neither test is anchored: text around an allowed extension or mimetype keeps it allowed. */
  lemma PatternsUnanchored(p: string, s: string, q: string)
    ensures ExtAllowed(s) ==> ExtAllowed(p + s + q)
    ensures MimeAllowed(s) ==> MimeAllowed(p + s + q)
  {
    var words := ["jpeg", "jpg", "png", "gif", "mp4", "webm", "ogg", "video/mp4", "video/webm", "video/ogg"];
    forall w | w in words && Contains(s, w) ensures Contains(p + s + q, w) {
      ContainsWithin(p, s, q, w);
    }
  }

  /** The extension of `base.e` is `.e` whenever `e` holds no dot, whatever `base` is. */
  lemma {:induction false} ExtNameOf(base: string, e: string)
    requires Free(e, '.')
    ensures ExtName(base + "." + e) == "." + e
    decreases |e|
  {
    var name := base + "." + e;
    if |e| == 0 {
      assert name[|name| - 1] == '.';
      assert name[|base|..] == ".";
    } else {
      var e' := e[..|e| - 1];
      ExtNameOf(base, e');
      assert name[..|name| - 1] == base + "." + e';
      assert LastDot(name) == LastDot(base + "." + e');
      assert name[|base|..] == "." + e;
    }
  }

  /** No position of `s` starts an occurrence of `w`. */
  lemma Absent(s: string, w: string)
    requires forall i :: !OccursAt(s, w, i)
    ensures !Contains(s, w)
  {
    ContainsAt(s, w);
  }

  /** The extension test finds "png" inside ".apng-backup". */
  lemma LooseExtensionPasses(base: string)
    ensures ExtAllowed(ToLower(ExtName(base + "." + "apng-backup")))
  {
    var e := "apng-backup";
    ExtNameOf(base, e);
    var lower := ToLower(ExtName(base + "." + e));
    assert ("." + e)[2..5] == "png";
    assert lower[2..5] == "png";
    ContainsAt(lower, "png");
    assert OccursAt(lower, "png", 2);
  }

  /** The mimetype test finds "png" inside "application/x-png-archive". */
  lemma LooseMimePasses()
    ensures MimeAllowed("application/x-png-archive")
  {
    var m := "application/x-png-archive";
    assert OccursAt(m, "png", 14);
    ContainsAt(m, "png");
  }

  /**
   * Files pass although neither their extension nor their mimetype is one of
   * the listed types: an "apng-backup" file declared as a png archive.
   */
  lemma LooseNamesPass(base: string)
    ensures CheckFileType(base + "." + "apng-backup", "application/x-png-archive")
  {
    LooseExtensionPasses(base);
    LooseMimePasses();
  }

  /** `w` cannot occur in `s` when its first character is missing from the first `k` characters, `k` past every start `w` could have. */
  lemma FirstCharAbsent(s: string, w: string, k: nat)
    requires |w| > 0 && k <= |s| && |s| - |w| < k
    requires w[0] !in s[..k]
    ensures !Contains(s, w)
  {
    assert forall i :: OccursAt(s, w, i) ==> s[..k][i] == s[i];
    Absent(s, w);
  }

  /** None of the image words occurs in `m` when no 'j', 'p' or 'g' starts a three-letter window of it. */
  lemma ImageWordsAbsent(m: string)
    requires |m| >= 3
    requires 'j' !in m[..|m| - 2] && 'p' !in m[..|m| - 2] && 'g' !in m[..|m| - 2]
    ensures !Contains(m, "jpeg") && !Contains(m, "jpg") && !Contains(m, "png") && !Contains(m, "gif")
  {
    var k := |m| - 2;
    FirstCharAbsent(m, "jpeg", k);
    FirstCharAbsent(m, "jpg", k);
    FirstCharAbsent(m, "png", k);
    FirstCharAbsent(m, "gif", k);
  }

  /** None of the video mimetypes occurs in `m` when no 'v' starts a nine-letter window of it. */
  lemma VideoWordsAbsent(m: string)
    requires |m| >= 9 && 'v' !in m[..|m| - 8]
    ensures !Contains(m, "video/mp4") && !Contains(m, "video/webm") && !Contains(m, "video/ogg")
  {
    var k := |m| - 8;
    FirstCharAbsent(m, "video/mp4", k);
    FirstCharAbsent(m, "video/webm", k);
    FirstCharAbsent(m, "video/ogg", k);
  }

  /** The extension test ignores case. */
  lemma ExtensionCaseIgnored(base: string)
    ensures CheckFileType(base + "." + "MP4", "video/mp4")
  {
    ExtNameOf(base, "MP4");
    var ext := ToLower("." + "MP4");
    assert ext == ".mp4";
    assert OccursAt(ext, "mp4", 1);
    ContainsAt(ext, "mp4");
    PrefixContained("video/mp4", "video/mp4");
  }

  /** The mimetype test does not ignore case: an upper-case video type is refused. */
  lemma MimeCaseMatters()
    ensures !MimeAllowed("VIDEO/MP4")
  {
    var m := "VIDEO/MP4";
    assert m[..|m| - 2] == "VIDEO/M" && m[..|m| - 8] == "V";
    ImageWordsAbsent(m);
    VideoWordsAbsent(m);
  }

  /** For video the whole "video/<type>" must appear: an mp4 file declared as audio is refused. */
  lemma AudioMp4Refused(base: string)
    ensures !CheckFileType(base + "." + "mp4", "audio/mp4")
  {
    var m := "audio/mp4";
    assert m[..|m| - 2] == "audio/m" && m[..|m| - 8] == "a";
    ImageWordsAbsent(m);
    VideoWordsAbsent(m);
  }

  /** The outcome of an upload through the filter. */
  datatype UploadOutcome = Stored(fileName: string) | WrongType | TooLarge

  /** The stored file name: `<field>-<time>` followed by the original extension. */
  function StoredName(field: string, now: nat, originalName: string): (r: string)
    ensures StartsWith(r, field + "-") && EndsWith(r, ExtName(originalName))
  {
    var ext := ExtName(originalName);
    var r := field + "-" + NatToString(now) + ext;
    assert r[..|field + "-"|] == field + "-";
    assert r[|r| - |ext|..] == ext;
    r
  }

  /** The type filter runs first; a file over the size limit is refused as it streams in. */
  function Upload(field: string, now: nat, originalName: string, mime: string, size: nat): (r: UploadOutcome)
    ensures r.Stored? <==> CheckFileType(originalName, mime) && size <= MaxUploadBytes
    ensures r.WrongType? <==> !CheckFileType(originalName, mime)
    ensures r.Stored? ==> EndsWith(r.fileName, ExtName(originalName))
  {
    if !CheckFileType(originalName, mime) then WrongType
    else if size > MaxUploadBytes then TooLarge
    else Stored(StoredName(field, now, originalName))
  }
}
