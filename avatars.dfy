/**
 * The avatar helpers shared by the chat list and the rest of the client:
 * two-letter initials, the URL an avatar image is loaded from, and the
 * image-or-initials choice with its "image failed" flag.
 */
module Avatars {
  import opened Wrappers
  import opened Strings

  /** The first character of `s` as a string, as `s[0]` reads it. */
  function Head(s: string): string
    requires s != ""
  {
    s[..1]
  }

  /**
   * The words of the trimmed name, split on single spaces. When there are
   * two or more, the first and the last are non-empty and the first starts
   * with the first non-blank character of the name.
   */
  function Words(name: string): (r: seq<string>)
    ensures |r| >= 1
    ensures |r| >= 2 ==> Trim(name) != "" && r[0] != "" && r[0][0] == Trim(name)[0] && r[|r| - 1] != ""
  {
    var t := Trim(name);
    if t == "" then Split(t, ' ')
    else
      SplitFirstPiece(t, ' ');
      SplitLastPiece(t, ' ');
      Split(t, ' ')
  }

  /** The first letters of the first and the last word, upper-cased. */
  function FirstAndLast(words: seq<string>): (r: string)
    requires |words| >= 2 && words[0] != "" && words[|words| - 1] != ""
    ensures |r| == 2 && r[0] == UpperChar(words[0][0]) && r[1] == UpperChar(words[|words| - 1][0])
  {
    ToUpper(Head(words[0]) + Head(words[|words| - 1]))
  }

  /**
   * `getInitials` (identical in both avatar components): "?" for a missing
   * or empty name; the first letters of the first and last space-separated
   * words of the trimmed name when there are two or more; otherwise the
   * first two characters of the name as given. Upper-cased.
   */
  function GetInitials(name: Option<string>): (r: string)
    ensures !TruthyStr(name) ==> r == "?"
    ensures |r| <= 2
    ensures TruthyStr(name) && |Words(name.value)| >= 2 ==> |r| == 2 && r == FirstAndLast(Words(name.value))
    ensures TruthyStr(name) && |Words(name.value)| < 2 ==>
              r == ToUpper(name.value[..if |name.value| < 2 then |name.value| else 2])
  {
    if !TruthyStr(name) then "?"
    else if |Words(name.value)| >= 2 then
      FirstAndLast(Words(name.value))
    else
      ToUpper(name.value[..if |name.value| < 2 then |name.value| else 2])
  }

  /** With two or more words, the initials start with the first non-blank character of the name. */
  lemma InitialsStartWithFirstLetter(name: string)
    requires name != "" && |Words(name)| >= 2
    ensures GetInitials(Some(name))[0] == UpperChar(Trim(name)[0])
  {
  }

  /** `BACKEND_ORIGIN` with one trailing '/' removed. */
  function OriginBase(origin: string): (r: string)
    ensures EndsWith(origin, "/") ==> r + "/" == origin
    ensures !EndsWith(origin, "/") ==> r == origin
  {
    if EndsWith(origin, "/") then origin[..|origin| - 1] else origin
  }

  /** The path with a leading '/' ensured. */
  function RootedPath(path: string): (r: string)
    ensures StartsWith(r, "/")
    ensures StartsWith(path, "/") ==> r == path
    ensures !StartsWith(path, "/") ==> r == "/" + path
  {
    if StartsWith(path, "/") then path else "/" + path
  }

  /** The origin minus one trailing '/' followed by the path with a leading '/' ensured. */
  function JoinOrigin(origin: string, path: string): string {
    OriginBase(origin) + RootedPath(path)
  }

  /**
   * The join puts exactly one '/' between an origin and a path that carry at
   * most one slash each at the junction, whether or not either has it.
   */
  lemma JoinOriginNormal(o: string, p: string)
    requires !EndsWith(o, "/") && !StartsWith(p, "/")
    ensures JoinOrigin(o, p) == o + "/" + p
    ensures JoinOrigin(o + "/", p) == o + "/" + p
    ensures JoinOrigin(o, "/" + p) == o + "/" + p
    ensures JoinOrigin(o + "/", "/" + p) == o + "/" + p
  {
    assert (o + "/")[..|o + "/"| - 1] == o;
    assert (o + "/")[|o + "/"| - 1..] == "/";
    assert ("/" + p)[..1] == "/";
  }

  /**
   * `getSafeSrc` in the chat avatar (and `getAvatarSrc` in the chat page):
   * nothing for an empty source, `http…` and `blob:…` sources unchanged,
   * anything else joined to the backend origin.
   */
  function GetSafeSrc(origin: string, source: Option<string>): (r: Option<string>)
    ensures r.None? <==> !TruthyStr(source)
    ensures TruthyStr(source) && (StartsWith(source.value, "http") || StartsWith(source.value, "blob:")) ==> r == source
    ensures TruthyStr(source) && !StartsWith(source.value, "http") && !StartsWith(source.value, "blob:") ==>
              r == Some(JoinOrigin(origin, source.value))
  {
    if !TruthyStr(source) then None
    else if StartsWith(source.value, "http") || StartsWith(source.value, "blob:") then source
    else Some(JoinOrigin(origin, source.value))
  }

  /** A relative source always ends up under the origin, followed by a '/' and the source's own path. */
  lemma SafeSrcUnderOrigin(origin: string, source: string)
    requires source != "" && !StartsWith(source, "http") && !StartsWith(source, "blob:")
    ensures var r := GetSafeSrc(origin, Some(source)).value;
            StartsWith(r, OriginBase(origin)) && r[|OriginBase(origin)|] == '/' && EndsWith(r, source)
  {
    var b := OriginBase(origin);
    var p := RootedPath(source);
    var r := b + p;
    assert r[..|b|] == b;
    assert r[|b|] == p[0];
    assert p[..1] == "/";
    if StartsWith(source, "/") {
      assert r[|r| - |source|..] == source;
    } else {
      assert r[|r| - |source|..] == source;
    }
  }

  /**
   * The chat avatar: the image is shown while a source is resolved and has
   * not failed; a load error shows the initials; a successful load or a new
   * source clears the failure.
   */
  class ChatAvatarState {
    var finalSrc: Option<string>
    var failed: bool

    constructor (origin: string, src: Option<string>)
      ensures finalSrc == GetSafeSrc(origin, src) && !failed
    {
      finalSrc := GetSafeSrc(origin, src);
      failed := false;
    }

    /** Shows the image rather than the initials */
    predicate ShowsImage()
      reads this
    {
      finalSrc.Some? && !failed
    }

    method OnError()
      modifies this`failed
      ensures failed && !ShowsImage()
    {
      failed := true;
    }

    method OnLoad()
      modifies this`failed
      ensures !failed && (ShowsImage() <==> finalSrc.Some?)
    {
      failed := false;
    }

    /** A new render: the flag is reset exactly when the resolved source changes. */
    method Rerender(origin: string, src: Option<string>)
      modifies this
      ensures finalSrc == GetSafeSrc(origin, src)
      ensures failed == (old(failed) && finalSrc == old(finalSrc))
    {
      var next := GetSafeSrc(origin, src);
      if next != finalSrc {
        failed := false;
      }
      finalSrc := next;
    }
  }

  /**
   * The generic avatar: the source is used as given, and once an image has
   * failed the initials stay, even after the source changes.
   */
  class AvatarState {
    var src: Option<string>
    var failed: bool

    constructor (src: Option<string>)
      ensures this.src == src && !failed
    {
      this.src := src;
      failed := false;
    }

    predicate ShowsImage()
      reads this
    {
      TruthyStr(src) && !failed
    }

    method OnError()
      modifies this`failed
      ensures failed && !ShowsImage()
    {
      failed := true;
    }

    method Rerender(src: Option<string>)
      modifies this`src
      ensures this.src == src
    {
      this.src := src;
    }
  }
}
