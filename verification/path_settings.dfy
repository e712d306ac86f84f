/**
 * How the settings tab normalises and classifies the path of a vocabulary
 * book: a relative `.md` path typed in directly, or an `obsidian://open` link
 * copied from the app, whose file component is percent-decoded. The file
 * system's `exists` query and `decodeURIComponent` are parameters.
 */
module PathSettings {
  import opened Options
  import opened JsStrings

  datatype VocabularyBookPathStatus = Invalid | DoesNotExist | Exists

  /** The characters a relative path may not contain: `:*?"<>|`, carriage return and line feed. */
  const Forbidden: set<char> := {':', '*', '?', '"', '<', '>', '|', '\r', '\n'}

  /** Every character is one `[^:*?"<>|\r\n]` accepts. */
  predicate AllowedRun(s: string) {
    forall i :: 0 <= i < |s| ==> s[i] !in Forbidden
  }

  const MarkdownExtension: string := ".md"

  /** `(\.[^:*?"<>|\r\n]+)*`: zero or more segments, each a dot and a non-empty allowed run. */
  ghost predicate DotSegments(t: string)
    decreases |t|
  {
    t == [] || (t[0] == '.' && exists j :: 1 < j <= |t| && AllowedRun(t[1..j]) && DotSegments(t[j..]))
  }

  /**
   * The language of the relative-path pattern, read off its structure: a
   * non-empty allowed run, dot segments, then `.md` at the very end.
   */
  ghost predicate RelativePathPattern(s: string) {
    EndsWith(s, MarkdownExtension) &&
    exists i :: 0 < i <= |s| - |MarkdownExtension| && AllowedRun(s[..i]) && DotSegments(s[i..|s| - |MarkdownExtension|])
  }

  /** `isRelativePath`: something before `.md`, and no forbidden character anywhere. */
  function IsRelativePath(s: string): (b: bool)
    ensures b ==> EndsWith(s, MarkdownExtension)
  {
    |MarkdownExtension| < |s| && EndsWith(s, MarkdownExtension) && AllowedRun(s)
  }

  /** Dot segments hold no forbidden character. */
  lemma {:induction false} DotSegmentsAllowed(t: string)
    requires DotSegments(t)
    ensures AllowedRun(t)
    decreases |t|
  {
    if t != [] {
      var j :| 1 < j <= |t| && AllowedRun(t[1..j]) && DotSegments(t[j..]);
      DotSegmentsAllowed(t[j..]);
      forall k | 0 <= k < |t| ensures t[k] !in Forbidden {
        if 0 < k < j {
          assert t[k] == t[1..j][k - 1];
        } else if j <= k {
          assert t[k] == t[j..][k - j];
        }
      }
    }
  }

  /** The scan accepts exactly the language of the relative-path pattern. */
  lemma IsRelativePathMatchesPattern(s: string)
    ensures IsRelativePath(s) <==> RelativePathPattern(s)
  {
    var n := |s| - |MarkdownExtension|;
    if IsRelativePath(s) {
      assert AllowedRun(s[..n]);
      assert s[n..n] == [];
      assert DotSegments(s[n..n]);
    }
    if RelativePathPattern(s) {
      var i :| 0 < i <= n && AllowedRun(s[..i]) && DotSegments(s[i..n]);
      DotSegmentsAllowed(s[i..n]);
      forall k | 0 <= k < |s| ensures s[k] !in Forbidden {
        if k < i {
          assert s[k] == s[..i][k];
        } else if k < n {
          assert s[k] == s[i..n][k - i];
        } else {
          assert s[k] == MarkdownExtension[k - n];
        }
      }
    }
  }

  const LinkPrefix: string := "obsidian://open?vault="
  const FileKey: string := "&file="

  /** A `[^&]+` run: non-empty, without `&`. */
  predicate LinkPart(t: string) {
    t != [] && '&' !in t
  }

  /**
   * The vault and file components of an `obsidian://open?vault=…&file=…`
   * link, or `None` when the input is not such a link.
   */
  function ObsidianLinkParts(s: string): (r: Option<(string, string)>)
    ensures r.Some? ==> LinkPart(r.value.0) && LinkPart(r.value.1)
    ensures r.Some? ==> s == LinkPrefix + r.value.0 + FileKey + r.value.1
  {
    if !StartsWith(s, LinkPrefix) then None
    else
      var rest := s[|LinkPrefix|..];
      match IndexOf(rest, '&')
      case None => None
      case Some(i) =>
        var vault, after := rest[..i], rest[i..];
        if 0 < i && StartsWith(after, FileKey) && |FileKey| < |after| && '&' !in after[|FileKey|..] then
          LinkAssembly(s, i);
          Some((vault, after[|FileKey|..]))
        else None
  }

  /** A text that starts with the link prefix and has the file key at offset `i` after it is made of those pieces. */
  lemma LinkAssembly(s: string, i: nat)
    requires StartsWith(s, LinkPrefix) && i <= |s| - |LinkPrefix| && StartsWith(s[|LinkPrefix|..][i..], FileKey)
    ensures var rest := s[|LinkPrefix|..];
      s == LinkPrefix + rest[..i] + FileKey + rest[i..][|FileKey|..]
  {
    var rest := s[|LinkPrefix|..];
    var after := rest[i..];
    assert s == LinkPrefix + rest;
    assert rest == rest[..i] + after;
    assert after == FileKey + after[|FileKey|..];
  }

  /** A link has a colon right after `obsidian`. */
  lemma LinkHasColon(s: string)
    requires IsObsidianLink(s)
    ensures 8 < |s| && s[8] == ':'
  {
    assert s[..|LinkPrefix|] == LinkPrefix;
    assert s[..|LinkPrefix|][8] == s[8];
  }

  /** Every link built from a vault and a file component is recognised, with those components. */
  lemma ObsidianLinkOf(vault: string, file: string)
    requires LinkPart(vault) && LinkPart(file)
    ensures ObsidianLinkParts(LinkPrefix + vault + FileKey + file) == Some((vault, file))
  {
    var s := LinkPrefix + vault + FileKey + file;
    var rest := vault + FileKey + file;
    assert s == LinkPrefix + rest;
    ConcatHalves(LinkPrefix, rest);
    assert rest == vault + (FileKey + file);
    ConcatHalves(vault, FileKey + file);
    IndexOfIs(rest, '&', |vault|);
    ConcatHalves(FileKey, file);
  }

  /** `isObsidianLink`. */
  function IsObsidianLink(s: string): bool {
    ObsidianLinkParts(s).Some?
  }

  /** `.replace(/%2F/g, '/')`: every encoded slash, scanning left to right, becomes `/`. */
  function ReplaceEncodedSlashes(s: string): string
    decreases |s|
  {
    if s == [] then ""
    else if StartsWith(s, "%2F") then "/" + ReplaceEncodedSlashes(s[3..])
    else [s[0]] + ReplaceEncodedSlashes(s[1..])
  }

  /** The first character of the rewritten text, when it is not a slash, is copied from an input that does not start with `%2F`. */
  lemma ReplacedHead(s: string)
    requires ReplaceEncodedSlashes(s) != [] && ReplaceEncodedSlashes(s)[0] != '/'
    ensures s != [] && !StartsWith(s, "%2F") && ReplaceEncodedSlashes(s)[0] == s[0]
    ensures ReplaceEncodedSlashes(s)[1..] == ReplaceEncodedSlashes(s[1..])
  {
  }

  /** A text whose first three characters spell `%2F` starts with it. */
  lemma StartsWithChars(s: string)
    requires 3 <= |s| && s[0] == '%' && s[1] == '2' && s[2] == 'F'
    ensures StartsWith(s, "%2F")
  {
    assert s[..3] == "%2F";
  }

  /** No encoded slash is left after the replacement. */
  lemma {:induction false} NoEncodedSlashLeft(s: string, p: nat)
    ensures !OccursAt(ReplaceEncodedSlashes(s), "%2F", p)
    decreases |s|
  {
    var r := ReplaceEncodedSlashes(s);
    if s != [] && OccursAt(r, "%2F", p) {
      CharOfOccurrence(r, "%2F", p, 0);
      if StartsWith(s, "%2F") {
        var t := ReplaceEncodedSlashes(s[3..]);
        assert r == "/" + t;
        assert p > 0;
        OccursWithin(r, t, 1, "%2F", p - 1);
        NoEncodedSlashLeft(s[3..], p - 1);
      } else if p > 0 {
        var t := ReplaceEncodedSlashes(s[1..]);
        assert r == [s[0]] + t;
        OccursWithin(r, t, 1, "%2F", p - 1);
        NoEncodedSlashLeft(s[1..], p - 1);
      } else {
        CharOfOccurrence(r, "%2F", 0, 1);
        CharOfOccurrence(r, "%2F", 0, 2);
        ReplacedHead(s);
        ReplacedHead(s[1..]);
        ReplacedHead(s[2..]);
        StartsWithChars(s);
      }
    }
  }

  /** Text without an encoded slash is left as it is. */
  lemma {:induction false} ReplaceWithoutEncodedSlash(s: string)
    requires forall p: nat :: !OccursAt(s, "%2F", p)
    ensures ReplaceEncodedSlashes(s) == s
    decreases |s|
  {
    if s != [] {
      assert !OccursAt(s, "%2F", 0);
      forall p: nat ensures !OccursAt(s[1..], "%2F", p) {
        if OccursAt(s[1..], "%2F", p) {
          OccursNested(s, s[1..], 1, "%2F", p);
        }
      }
      ReplaceWithoutEncodedSlash(s[1..]);
    }
  }

  /**
   * `convertObsidianLinkToRelativePath`: the decoded file component of a
   * link, with encoded slashes turned into `/`; the empty string otherwise.
   */
  function ConvertObsidianLinkToRelativePath(input: string, decode: string -> string): (r: string)
    ensures !IsObsidianLink(input) ==> r == ""
    ensures forall p: nat :: !OccursAt(r, "%2F", p)
  {
    match ObsidianLinkParts(input)
    case None => ""
    case Some((vault, file)) =>
      var r := ReplaceEncodedSlashes(decode(file));
      NoEncodedSlashSomewhere(decode(file));
      r
  }

  /** `NoEncodedSlashLeft` at every position. */
  lemma NoEncodedSlashSomewhere(s: string)
    ensures forall p: nat :: !OccursAt(ReplaceEncodedSlashes(s), "%2F", p)
  {
    forall p: nat ensures !OccursAt(ReplaceEncodedSlashes(s), "%2F", p) {
      NoEncodedSlashLeft(s, p);
    }
  }

  /** A link converts to its decoded file component. */
  lemma ConvertLink(vault: string, file: string, decode: string -> string)
    requires LinkPart(vault) && LinkPart(file)
    ensures ConvertObsidianLinkToRelativePath(LinkPrefix + vault + FileKey + file, decode) == ReplaceEncodedSlashes(decode(file))
  {
    ObsidianLinkOf(vault, file);
  }

  /**
   * `formatPath`: the empty input stays empty; a link is converted first;
   * `.md` is appended when missing; anything that is then not a relative
   * path becomes the empty string.
   */
  function FormatPath(path: string, decode: string -> string): (r: string)
    ensures r == "" || IsRelativePath(r)
    ensures path == "" ==> r == ""
  {
    if path == "" then ""
    else
      var converted := if IsObsidianLink(path) then ConvertObsidianLinkToRelativePath(path, decode) else path;
      var withExtension := if !EndsWith(converted, MarkdownExtension) then converted + MarkdownExtension else converted;
      if !IsRelativePath(withExtension) then "" else withExtension
  }

  /** A relative path is no link: a link has a colon, which relative paths forbid. */
  lemma RelativePathIsNoLink(s: string)
    requires IsRelativePath(s)
    ensures !IsObsidianLink(s)
  {
    if IsObsidianLink(s) {
      LinkHasColon(s);
    }
  }

  /** A relative path is kept as it is. */
  lemma FormatRelativePath(path: string, decode: string -> string)
    requires IsRelativePath(path)
    ensures FormatPath(path, decode) == path
  {
    RelativePathIsNoLink(path);
  }

  /** Formatting is idempotent. */
  lemma FormatPathIdempotent(path: string, decode: string -> string)
    ensures FormatPath(FormatPath(path, decode), decode) == FormatPath(path, decode)
  {
    if FormatPath(path, decode) != "" {
      FormatRelativePath(FormatPath(path, decode), decode);
    }
  }

  /** A plain name without `.md` and without forbidden characters gets the extension appended. */
  lemma FormatAppendsExtension(path: string, decode: string -> string)
    requires path != "" && AllowedRun(path) && !EndsWith(path, MarkdownExtension)
    ensures FormatPath(path, decode) == path + MarkdownExtension
  {
    var s := path + MarkdownExtension;
    if IsObsidianLink(path) {
      LinkHasColon(path);
    }
    assert s[|s| - |MarkdownExtension|..] == MarkdownExtension;
    forall i | 0 <= i < |s| ensures s[i] !in Forbidden {
      if i >= |path| {
        assert s[i] == MarkdownExtension[i - |path|];
      }
    }
  }

  /** A text with a forbidden character formats to the empty string unless it is a link. */
  lemma FormatRejectsForbidden(path: string, decode: string -> string, k: nat)
    requires k < |path| && path[k] in Forbidden && !IsObsidianLink(path)
    ensures FormatPath(path, decode) == ""
  {
    var s := if !EndsWith(path, MarkdownExtension) then path + MarkdownExtension else path;
    assert s[k] == path[k];
  }

  /**
   * `checkPath`: `Invalid` for text outside the relative-path pattern,
   * otherwise `Exists` or `DoesNotExist` as the file system answers.
   */
  function CheckPath(path: string, fileExists: string -> bool): (status: VocabularyBookPathStatus)
    ensures status == Invalid <==> !RelativePathPattern(path)
    ensures status != Invalid ==> (status == Exists <==> fileExists(path))
  {
    IsRelativePathMatchesPattern(path);
    if IsRelativePath(path) then
      if fileExists(path) then Exists else DoesNotExist
    else Invalid
  }

  /** A formatted path is invalid exactly when formatting rejected it. */
  lemma CheckFormattedPath(path: string, decode: string -> string, fileExists: string -> bool)
    ensures CheckPath(FormatPath(path, decode), fileExists) == Invalid <==> FormatPath(path, decode) == ""
  {
    IsRelativePathMatchesPattern(FormatPath(path, decode));
  }

  /**
   * The path the settings keep after the path field is edited to `value`:
   * reset to empty, and replaced by the formatted path only when that file
   * exists.
   */
  function StoredPathAfterEdit(value: string, decode: string -> string, fileExists: string -> bool): (stored: string)
    ensures stored == "" || (IsRelativePath(stored) && fileExists(stored) && stored == FormatPath(value, decode))
    ensures value == "" ==> stored == ""
    ensures value != "" && CheckPath(FormatPath(value, decode), fileExists) == Exists ==> stored == FormatPath(value, decode)
  {
    if value == "" then ""
    else
      var formatted := FormatPath(value, decode);
      IsRelativePathMatchesPattern(formatted);
      if CheckPath(formatted, fileExists) == Exists then formatted else ""
  }

  /**
   * Assigning `paths[i] = v` on a JavaScript array: past the end, the array
   * grows and the holes read as `undefined` (`None`).
   */
  function AssignPath(paths: seq<Option<string>>, i: nat, v: string): (r: seq<Option<string>>)
    ensures |r| == if i < |paths| then |paths| else i + 1
    ensures r[i] == Some(v)
    ensures forall j :: 0 <= j < |paths| && j != i ==> r[j] == paths[j]
    ensures forall j :: |paths| <= j < i ==> r[j] == None
  {
    if i < |paths| then paths[i := Some(v)] else paths + seq(i - |paths|, _ => None) + [Some(v)]
  }

  /** The `onChange` handler of the `i`-th path field, as it leaves the stored paths. */
  function EditPath(paths: seq<Option<string>>, i: nat, value: string, decode: string -> string, fileExists: string -> bool): (r: seq<Option<string>>)
    ensures |r| == if i < |paths| then |paths| else i + 1
    ensures r[i] == Some(StoredPathAfterEdit(value, decode, fileExists))
    ensures forall j :: 0 <= j < |r| && j != i ==> r[j] == if j < |paths| then paths[j] else None
  {
    AssignPath(paths, i, StoredPathAfterEdit(value, decode, fileExists))
  }
}
