/** helpers.py: the unit choice of `human_readable_size`, the preview
    classifier `build_preview_payload`, `client_ip_from_request`,
    `render_template`, and the file URL builders. */
module Helpers {
  import opened Common
  import opened PyStrings
  import opened Config

  /** The parts of an incoming request the helpers read. */
  datatype Request = Request(
    scheme: string,                 // request.scheme
    host: Option<string>,           // the Host header
    forwardedFor: Option<string>,   // the X-Forwarded-For header
    peerHost: Option<string>        // the host of the transport's peername, if any
  )

  // ---------------------------------------------------------------------------
  // human_readable_size (helpers.py:33-42)
  // ---------------------------------------------------------------------------

  const Units: seq<string> := ["B", "KB", "MB", "GB", "TB"]

  function Pow1024(k: nat): (p: nat)
    ensures p >= 1
  {
    if k == 0 then 1 else 1024 * Pow1024(k - 1)
  }

  lemma {:induction false} Pow1024Monotone(i: nat, j: nat)
    requires i <= j
    ensures Pow1024(i) <= Pow1024(j)
    decreases j - i
  {
    if i < j {
      Pow1024Monotone(i, j - 1);
    }
  }

  /** What `human_readable_size` prints: whole bytes, or the quantity
      `bytes / 1024^unitIndex` in the unit `Units[unitIndex]` (printed with
      two decimals). */
  datatype Readable = Whole(bytes: int) | Scaled(bytes: int, unitIndex: nat)

  /** The index in `Units` of the unit a size is printed in. */
  function UnitIndex(n: int): (k: nat)
    ensures k < |Units|
    ensures k > 0 ==> Pow1024(k) <= n
    ensures k < |Units| - 1 ==> n < Pow1024(k + 1)
  {
    if n < Pow1024(1) then 0
    else if n < Pow1024(2) then 1
    else if n < Pow1024(3) then 2
    else if n < Pow1024(4) then 3
    else 4
  }

  /** What a size of `n` bytes prints as: whole bytes below 1024, the
      scaled amount from there on. */
  function ReadableOf(n: int): (r: Readable)
    ensures r.bytes == n
    ensures r.Whole? <==> n < 1024
  {
    var k := UnitIndex(n);
    if k == 0 then Whole(n) else Scaled(n, k)
  }

  /** The text of the byte branch, `f"{int(size)} B"`. */
  function WholeText(n: int): string
  {
    IntToString(n) + " B"
  }

  /** `size or 0` */
  function SizeOrZero(size: Option<int>): int
  {
    if size.Some? then size.value else 0
  }

  /** helpers.py:33-42. The source divides a float by 1024 per unit; here the
      running quotient is kept exact as `n / divisor`, so `size < 1024` reads
      `n < 1024 * divisor`. */
  method HumanReadableSize(size: Option<int>) returns (r: Readable)
    ensures r == ReadableOf(SizeOrZero(size))
  {
    var n := SizeOrZero(size);
    var divisor: nat := 1;
    var i := 0;
    while true
      invariant 0 <= i < |Units|
      invariant divisor == Pow1024(i)
      invariant i > 0 ==> Pow1024(i) <= n
      decreases |Units| - i
    {
      if n < 1024 * divisor || i == |Units| - 1 {
        if i == 0 {
          return Whole(n);
        }
        return Scaled(n, i);
      }
      divisor := divisor * 1024;
      i := i + 1;
    }
  }

  /** The unit is the least one whose next power of 1024 exceeds the size;
      sizes from 1024^4 on are always TB. */
  lemma UnitIndexIsLeast(n: int, j: nat)
    requires n < Pow1024(j + 1)
    ensures UnitIndex(n) <= j
  {
    if UnitIndex(n) > j {
      Pow1024Monotone(j + 1, UnitIndex(n));
    }
  }

  /** A larger size never gets a smaller unit. */
  lemma UnitIndexMonotone(n: int, m: int)
    requires n <= m
    ensures UnitIndex(n) <= UnitIndex(m)
  {
  }

  /** The printed quantity of KB, MB and GB lies in [1, 1024); in TB it is at
      least 1. */
  lemma ScaledAmountInRange(n: int)
    requires ReadableOf(n).Scaled?
    ensures var r := ReadableOf(n);
            Pow1024(r.unitIndex) <= n
            && (r.unitIndex < |Units| - 1 ==> n < 1024 * Pow1024(r.unitIndex))
  {
  }

  /** Sizes below 1024 (including `None`) print as whole bytes. */
  lemma SmallSizesPrintWholeBytes(size: Option<int>)
    requires SizeOrZero(size) < 1024
    ensures ReadableOf(SizeOrZero(size)) == Whole(SizeOrZero(size))
    ensures size.None? ==> WholeText(SizeOrZero(size)) == "0 B"
  {
  }

  lemma WholeTextExamples()
    ensures ReadableOf(0) == Whole(0) && WholeText(0) == "0 B"
    ensures ReadableOf(1023) == Whole(1023) && WholeText(1023) == "1023 B"
  {
    assert NatToString(1) == "1";
    assert NatToString(10) == NatToString(1) + ['0'];
    assert NatToString(102) == NatToString(10) + ['2'];
    assert NatToString(1023) == NatToString(102) + ['3'];
  }

  lemma UnitExamples()
    ensures ReadableOf(1024) == Scaled(1024, 1) && Units[1] == "KB"
    ensures ReadableOf(1048576) == Scaled(1048576, 2) && Units[2] == "MB"
  {
  }

  // ---------------------------------------------------------------------------
  // build_preview_payload (helpers.py:12-30, 61-87)
  // ---------------------------------------------------------------------------

  const ImageExtensions: set<string> := {".png", ".jpg", ".jpeg", ".gif", ".bmp", ".webp"}
  const VideoExtensions: set<string> := {".mp4", ".webm", ".mov", ".mkv", ".avi"}
  const AudioExtensions: set<string> := {".mp3", ".wav", ".ogg", ".m4a", ".aac", ".flac"}
  const TextExtensions: set<string> :=
    {".txt", ".md", ".log", ".json", ".csv", ".py", ".js", ".ts", ".html", ".css",
     ".yaml", ".yml", ".ini", ".cfg"}

  /** At most this many characters of a text file are shown. */
  const SnippetChars: nat := 4000

  /** The stored file as the classifier reads it in text mode: either the
      decoded text or a read that raised. */
  datatype FileContent = Unreadable | Decoded(text: string)

  datatype Preview = Image | Video | Audio | Pdf | Text(snippet: string, truncated: bool) | NoPreview

  /** The last component of a path that is neither empty nor `.`. */
  function LastComponent(parts: seq<string>): (r: string)
    ensures r != "."
    ensures r == "" || r in parts
  {
    if |parts| == 0 then ""
    else if parts[|parts| - 1] != "" && parts[|parts| - 1] != "." then parts[|parts| - 1]
    else LastComponent(parts[..|parts| - 1])
  }

  /** `pathlib.Path(path).name`: a single component, never `.`. */
  function PathName(path: string): (name: string)
    ensures '/' !in name && name != "."
  {
    SplitOnChar(path, '/');
    LastComponent(SplitOn(path, "/"))
  }

  /** A path without a separator is its own name, except `.`, whose name is
      empty. */
  lemma PathNameOfPlainName(path: string)
    requires '/' !in path
    ensures PathName(path) == (if path == "." then "" else path)
  {
    SplitOnCharAbsent(path, '/');
    assert SplitOn(path, "/") == [path];
    if path == "" || path == "." {
      assert LastComponent([path]) == LastComponent([]);
    }
  }

  /** `s.rfind(c)` */
  function LastIndexOf(s: string, c: char): (i: int)
    ensures -1 <= i < |s|
    ensures i >= 0 ==> s[i] == c
    ensures forall j :: i < j < |s| ==> s[j] != c
  {
    if |s| == 0 then -1
    else if s[|s| - 1] == c then |s| - 1
    else LastIndexOf(s[..|s| - 1], c)
  }

  /** `PurePath.suffix` of a name: from its last dot on, unless that dot is the
      first or the last character. */
  function Suffix(name: string): (suffix: string)
    ensures suffix == "" || (2 <= |suffix| < |name| && EndsWith(name, suffix)
                             && suffix[0] == '.' && '.' !in suffix[1..])
  {
    var i := LastIndexOf(name, '.');
    if 0 < i < |name| - 1 then name[i..] else ""
  }

  /** The suffix of `stem.ext` is `.ext` when `ext` has no dot. */
  lemma SuffixOfDottedName(stem: string, ext: string)
    requires stem != "" && ext != "" && '.' !in ext
    ensures Suffix(stem + "." + ext) == "." + ext
  {
    var name := stem + "." + ext;
    assert name[|stem|] == '.';
    assert name[|stem|..] == "." + ext;
  }

  /** A name without a dot has no suffix. */
  lemma SuffixOfUndottedName(name: string)
    requires '.' !in name
    ensures Suffix(name) == ""
  {
  }

  /** `pathlib.Path(filename).suffix.lower()`: empty, or a dot followed
      by at least one character, without capitals. */
  function Extension(filename: string): (ext: string)
    ensures ext == "" || (|ext| >= 2 && ext[0] == '.')
    ensures NoCapital(ext)
  {
    Lower(Suffix(PathName(filename)))
  }

  /** `mime_type and mime_type.startswith(prefix)` */
  predicate MimeStartsWith(mime: Option<string>, prefix: string)
  {
    Truthy(mime) && StartsWith(mime.value, prefix)
  }

  predicate ImageMatch(ext: string, mime: Option<string>)
  {
    MimeStartsWith(mime, "image/") || ext in ImageExtensions
  }

  predicate VideoMatch(ext: string, mime: Option<string>)
  {
    MimeStartsWith(mime, "video/") || ext in VideoExtensions
  }

  predicate AudioMatch(ext: string, mime: Option<string>)
  {
    MimeStartsWith(mime, "audio/") || ext in AudioExtensions
  }

  predicate PdfMatch(ext: string, mime: Option<string>)
  {
    mime == Some("application/pdf") || ext == ".pdf"
  }

  predicate TextMatch(ext: string, mime: Option<string>)
  {
    (Truthy(mime) && (StartsWith(mime.value, "text/") || mime.value == "application/json"))
    || ext in TextExtensions
  }

  function Min(a: nat, b: nat): nat
  {
    if a < b then a else b
  }

  /** The text branch (helpers.py:73-87): the first 4000 characters, and
      whether one more can be read; a read that raised or an empty file
      gives no preview. */
  function TextPreview(content: FileContent): (p: Preview)
    ensures p.Text? || p == NoPreview
    ensures p.Text? <==> content.Decoded? && content.text != ""
    ensures p.Text? ==> 0 < |p.snippet| <= SnippetChars && StartsWith(content.text, p.snippet)
                        && (p.truncated <==> |content.text| > |p.snippet|)
                        && (|p.snippet| < SnippetChars ==> p.snippet == content.text)
  {
    if content.Decoded? && content.text != "" then
      var snippet := content.text[..Min(SnippetChars, |content.text|)];
      Text(snippet, |content.text| > SnippetChars)
    else NoPreview
  }

  /** helpers.py:61-87: the preview of the first kind of the table whose
      check matches the file's extension or MIME type. */
  function BuildPreviewPayload(filename: string, mime: Option<string>, content: FileContent): (p: Preview)
    ensures p == PreviewOf(FirstMatch(Priority, Extension(filename), mime), content)
  {
    PreviewIsFirstMatch(Extension(filename), mime, content);
    Classify(Extension(filename), mime, content)
  }

  /** The checks of helpers.py:64-87 on the lower-cased suffix `ext`. */
  function Classify(ext: string, mime: Option<string>, content: FileContent): Preview
  {
    if ImageMatch(ext, mime) then Image
    else if VideoMatch(ext, mime) then Video
    else if AudioMatch(ext, mime) then Audio
    else if PdfMatch(ext, mime) then Pdf
    else if TextMatch(ext, mime) then TextPreview(content)
    else NoPreview
  }

  /** The classifier's checks as an ordered table. */
  datatype Kind = ImageKind | VideoKind | AudioKind | PdfKind | TextKind

  const Priority: seq<Kind> := [ImageKind, VideoKind, AudioKind, PdfKind, TextKind]

  predicate KindMatches(kind: Kind, ext: string, mime: Option<string>)
  {
    match kind
    case ImageKind => ImageMatch(ext, mime)
    case VideoKind => VideoMatch(ext, mime)
    case AudioKind => AudioMatch(ext, mime)
    case PdfKind => PdfMatch(ext, mime)
    case TextKind => TextMatch(ext, mime)
  }

  /** The first kind of the table whose check matches. */
  function FirstMatch(kinds: seq<Kind>, ext: string, mime: Option<string>): (r: Option<Kind>)
    ensures r.Some? ==> r.value in kinds && KindMatches(r.value, ext, mime)
    ensures r.None? ==> forall k :: k in kinds ==> !KindMatches(k, ext, mime)
  {
    if |kinds| == 0 then None
    else if KindMatches(kinds[0], ext, mime) then Some(kinds[0])
    else FirstMatch(kinds[1..], ext, mime)
  }

  /** The kind found is at a position of the table before which no check
      matches. */
  lemma {:induction false} FirstMatchIsFirst(kinds: seq<Kind>, ext: string, mime: Option<string>)
    requires FirstMatch(kinds, ext, mime).Some?
    ensures exists i :: 0 <= i < |kinds| && kinds[i] == FirstMatch(kinds, ext, mime).value
                        && forall j :: 0 <= j < i ==> !KindMatches(kinds[j], ext, mime)
  {
    if !KindMatches(kinds[0], ext, mime) {
      var tail := kinds[1..];
      FirstMatchIsFirst(tail, ext, mime);
      var i :| 0 <= i < |tail| && tail[i] == FirstMatch(tail, ext, mime).value
               && forall j :: 0 <= j < i ==> !KindMatches(tail[j], ext, mime);
      assert kinds[i + 1] == tail[i];
      forall j | 0 <= j < i + 1
        ensures !KindMatches(kinds[j], ext, mime)
      {
        if j > 0 {
          assert kinds[j] == tail[j - 1];
        }
      }
    } else {
      assert kinds[0] == FirstMatch(kinds, ext, mime).value;
    }
  }

  /** What each outcome of the table means. */
  function PreviewOf(kind: Option<Kind>, content: FileContent): Preview
  {
    match kind
    case None => NoPreview
    case Some(ImageKind) => Image
    case Some(VideoKind) => Video
    case Some(AudioKind) => Audio
    case Some(PdfKind) => Pdf
    case Some(TextKind) => TextPreview(content)
  }

  /** First match wins: the preview is decided by the first check of the
      table image, video, audio, pdf, text that matches; a text match whose
      content is empty or unreadable gives no preview instead of trying
      anything else or failing. */
  lemma PreviewIsFirstMatch(ext: string, mime: Option<string>, content: FileContent)
    ensures Classify(ext, mime, content) == PreviewOf(FirstMatch(Priority, ext, mime), content)
  {
    var tail1, tail2, tail3, tail4 := Priority[1..], Priority[2..], Priority[3..], Priority[4..];
    assert tail1[1..] == tail2 && tail2[1..] == tail3 && tail3[1..] == tail4 && tail4[1..] == [];
    assert FirstMatch(tail4, ext, mime) == if TextMatch(ext, mime) then Some(TextKind) else None;
    assert FirstMatch(tail3, ext, mime)
           == if PdfMatch(ext, mime) then Some(PdfKind) else FirstMatch(tail4, ext, mime);
    assert FirstMatch(tail2, ext, mime)
           == if AudioMatch(ext, mime) then Some(AudioKind) else FirstMatch(tail3, ext, mime);
    assert FirstMatch(tail1, ext, mime)
           == if VideoMatch(ext, mime) then Some(VideoKind) else FirstMatch(tail2, ext, mime);
    assert FirstMatch(Priority, ext, mime)
           == if ImageMatch(ext, mime) then Some(ImageKind) else FirstMatch(tail1, ext, mime);
  }

  /** The extension of `stem.ext` is `.ext` in lower case. */
  lemma ExtensionOfDottedName(stem: string, ext: string)
    requires stem != "" && ext != "" && '.' !in ext && '/' !in stem && '/' !in ext
    ensures Extension(stem + "." + ext) == Lower("." + ext)
  {
    var name := stem + "." + ext;
    assert '/' !in name by {
      assert forall k :: 0 <= k < |name| ==> name[k] == if k < |stem| then stem[k] else ("." + ext)[k - |stem|];
    }
    PathNameOfPlainName(name);
    SuffixOfDottedName(stem, ext);
  }

  /** The extension of `stem` followed by a dotted suffix is that suffix
      lower-cased. */
  lemma ExtensionOfSuffixed(stem: string, dotted: string)
    requires stem != "" && '/' !in stem
    requires |dotted| >= 2 && dotted[0] == '.' && '.' !in dotted[1..] && '/' !in dotted
    ensures Extension(stem + dotted) == Lower(dotted)
  {
    var ext := dotted[1..];
    assert dotted == "." + ext;
    assert stem + dotted == stem + "." + ext;
    ExtensionOfDottedName(stem, ext);
  }

  lemma PngIsImage(content: FileContent)
    ensures Classify(Lower(".PNG"), None, content) == Image
  {
    assert Lower(".PNG") == ".png";
    assert ImageMatch(".png", None);
  }

  lemma PdfIsPdf(content: FileContent)
    ensures Classify(Lower(".pdf"), None, content) == Pdf
  {
    assert Lower(".pdf") == ".pdf";
    assert !ImageMatch(".pdf", None) && !VideoMatch(".pdf", None) && !AudioMatch(".pdf", None);
  }

  lemma TxtIsText(content: FileContent)
    ensures Classify(Lower(".txt"), None, content) == TextPreview(content)
  {
    assert Lower(".txt") == ".txt";
    assert !ImageMatch(".txt", None) && !VideoMatch(".txt", None) && !AudioMatch(".txt", None);
    assert !PdfMatch(".txt", None) && TextMatch(".txt", None);
  }

  /** A file name ending in `.PNG` is an image even with no MIME type: the
      suffix is matched lower-cased. */
  lemma UpperCasePngIsImage(stem: string, content: FileContent)
    requires stem != "" && '/' !in stem
    ensures BuildPreviewPayload(stem + ".PNG", None, content) == Image
  {
    ExtensionOfSuffixed(stem, ".PNG");
    PngIsImage(content);
  }

  /** A `.pdf` file with no MIME type is a pdf. */
  lemma PdfWithoutMimeType(stem: string, content: FileContent)
    requires stem != "" && '/' !in stem
    ensures BuildPreviewPayload(stem + ".pdf", None, content) == Pdf
  {
    ExtensionOfSuffixed(stem, ".pdf");
    PdfIsPdf(content);
  }

  /** A MIME type that names no kind, on a name without a suffix, gives
      none. */
  lemma UnknownTypeHasNoPreview(name: string, content: FileContent)
    requires '.' !in name && '/' !in name
    ensures BuildPreviewPayload(name, Some("application/octet-stream"), content) == NoPreview
  {
    ExtensionOfUndottedName(name);
    OctetStreamMatchesNothing(content);
  }

  lemma ExtensionOfUndottedName(name: string)
    requires '.' !in name && '/' !in name
    ensures Extension(name) == ""
  {
    PathNameOfPlainName(name);
    SuffixOfUndottedName(name);
    SuffixOfUndottedName("");
  }

  lemma OctetStreamMatchesNothing(content: FileContent)
    ensures Classify("", Some("application/octet-stream"), content) == NoPreview
  {
    var mime := "application/octet-stream";
    assert mime[..6] != "image/" by { assert mime[..6][0] != "image/"[0]; }
    assert mime[..6] != "video/" by { assert mime[..6][0] != "video/"[0]; }
    assert mime[..6] != "audio/" by { assert mime[..6][1] != "audio/"[1]; }
    assert mime[..5] != "text/" by { assert mime[..5][0] != "text/"[0]; }
  }

  /** A short `.txt` file is shown whole and not truncated; an unreadable or
      empty one falls through to no preview. */
  lemma TextPreviewExamples(stem: string, text: string)
    requires stem != "" && '/' !in stem
    requires 0 < |text| <= SnippetChars
    ensures BuildPreviewPayload(stem + ".txt", None, Decoded(text)) == Text(text, false)
    ensures BuildPreviewPayload(stem + ".txt", None, Unreadable) == NoPreview
    ensures BuildPreviewPayload(stem + ".txt", None, Decoded("")) == NoPreview
  {
    ExtensionOfSuffixed(stem, ".txt");
    TxtIsText(Decoded(text));
    TxtIsText(Unreadable);
    TxtIsText(Decoded(""));
    assert text[..|text|] == text;
  }

  // ---------------------------------------------------------------------------
  // client_ip_from_request (helpers.py:110-117)
  // ---------------------------------------------------------------------------

  /** The forwarded-for entry if the header is non-empty, else the peer's
      host, else "unknown". */
  function ClientIp(forwardedFor: Option<string>, peerHost: Option<string>): (ip: string)
    ensures Truthy(forwardedFor) ==> ',' !in ip && Stripped(ip)
    ensures !Truthy(forwardedFor) && peerHost.Some? ==> ip == peerHost.value
    ensures !Truthy(forwardedFor) && peerHost.None? ==> ip == "unknown"
  {
    if Truthy(forwardedFor) then
      var first := SplitOn(forwardedFor.value, ",")[0];
      SplitOnChar(forwardedFor.value, ',');
      Strip(first)
    else if peerHost.Some? then peerHost.value
    else "unknown"
  }

  /** The address is the first comma-separated entry of X-Forwarded-For,
      with surrounding whitespace removed. */
  lemma ClientIpIsFirstForwardedEntry(forwardedFor: string, peerHost: Option<string>)
    requires forwardedFor != ""
    ensures exists n :: 0 <= n <= |forwardedFor| && ',' !in forwardedFor[..n]
                        && (n == |forwardedFor| || forwardedFor[n] == ',')
                        && ClientIp(Some(forwardedFor), peerHost) == Strip(forwardedFor[..n])
  {
    SplitOnCharFirst(forwardedFor, ',');
    var first := SplitOn(forwardedFor, ",")[0];
    var n := |first|;
    assert forwardedFor[..n] == first;
    assert ClientIp(Some(forwardedFor), peerHost) == Strip(forwardedFor[..n]);
  }

  // ---------------------------------------------------------------------------
  // render_template (helpers.py:54-58)
  // ---------------------------------------------------------------------------

  /** The text `{{KEY}}` stands for in a template. */
  function Placeholder(key: string): (p: string)
    ensures p == "{{" + key + "}}"
    ensures p[0] == '{'
  {
    "{{" + key + "}}"
  }

  /** The template after the replacements, applied one after another in
      their (dict) order. */
  function Render(template: string, replacements: seq<(string, string)>): string
    decreases |replacements|
  {
    if |replacements| == 0 then template
    else Render(Replace(template, Placeholder(replacements[0].0), replacements[0].1), replacements[1..])
  }

  /** helpers.py:54-58, with the file's text as `template`. */
  method RenderTemplate(template: string, replacements: seq<(string, string)>) returns (text: string)
    ensures text == Render(template, replacements)
  {
    text := template;
    var i := 0;
    while i < |replacements|
      invariant 0 <= i <= |replacements|
      invariant Render(text, replacements[i..]) == Render(template, replacements)
    {
      var (key, value) := replacements[i];
      assert replacements[i..][1..] == replacements[i + 1..];
      text := Replace(text, Placeholder(key), value);
      i := i + 1;
    }
  }

  /** A template without `{` is not changed by replacements whose values
      have none either. */
  lemma {:induction false} RenderWithoutPlaceholders(template: string, replacements: seq<(string, string)>)
    requires '{' !in template
    requires forall k :: 0 <= k < |replacements| ==> '{' !in replacements[k].1
    ensures Render(template, replacements) == template
    decreases |replacements|
  {
    if |replacements| > 0 {
      var pat := Placeholder(replacements[0].0);
      ReplaceAbsent(template, pat, replacements[0].1);
      RenderWithoutPlaceholders(template, replacements[1..]);
    }
  }

  /** A pattern that starts with `{` is never found inside text free of
      `{`, so `replace` passes such a prefix over unchanged. */
  lemma {:induction false} ReplaceSkipsPrefix(a: string, rest: string, pat: string, repl: string)
    requires |pat| > 0 && pat[0] == '{' && '{' !in a
    ensures Replace(a + rest, pat, repl) == a + Replace(rest, pat, repl)
    decreases |a|
  {
    var s := a + rest;
    if |a| > 0 {
      if |s| >= |pat| {
        assert s[..|pat|][0] == a[0] != pat[0];
      }
      assert s[1..] == a[1..] + rest;
      ReplaceSkipsPrefix(a[1..], rest, pat, repl);
      if |s| < |pat| {
        ReplaceShort(rest, pat, repl);
      }
    } else {
      assert s == rest;
    }
  }

  lemma ReplaceShort(s: string, pat: string, repl: string)
    requires 0 < |pat| && |s| < |pat|
    ensures Replace(s, pat, repl) == s
  {
  }

  /** Text free of `{` holds no placeholder. */
  lemma NoPlaceholderIn(b: string, key: string)
    requires '{' !in b
    ensures !Occurs(b, Placeholder(key))
  {
    var pat := Placeholder(key);
    forall i: nat | i <= |b|
      ensures !OccursAt(b, pat, i)
    {
      if i + |pat| <= |b| {
        assert b[i..i + |pat|][0] == b[i];
      }
    }
  }

  /** Substitution: a template holding `{{KEY}}` once, with no other `{`
      around it, renders with the value in its place. */
  lemma RenderReplacesPlaceholder(a: string, key: string, b: string, value: string)
    requires '{' !in a && '{' !in b
    ensures Render(a + Placeholder(key) + b, [(key, value)]) == a + value + b
  {
    var pat := Placeholder(key);
    ReplaceSkipsPrefix(a, pat + b, pat, value);
    assert a + pat + b == a + (pat + b);
    assert (pat + b)[..|pat|] == pat && (pat + b)[|pat|..] == b;
    NoPlaceholderIn(b, key);
    ReplaceAbsent(b, pat, value);
    assert [(key, value)][1..] == [];
  }

  // ---------------------------------------------------------------------------
  // make_file_url, public_base_url, file_page_url (helpers.py:90-107)
  // ---------------------------------------------------------------------------

  /** The host `make_file_url` falls back on: the request's `Host` header,
      else the configured `HTTP_HOST:HTTP_PORT`. */
  function RequestHost(settings: Settings, req: Request): string
  {
    if Truthy(req.host) then req.host.value else settings.httpHost + ":" + IntToString(settings.httpPort)
  }

  /** helpers.py:90-96: the configured external URL without its trailing
      slashes, else the request's scheme and host, followed by
      `/files/<token>`. */
  function MakeFileUrl(settings: Settings, req: Request, token: string): (url: string)
    ensures Truthy(settings.externalUrl) ==> url == RStripChar(settings.externalUrl.value, '/') + "/files/" + token
    ensures !Truthy(settings.externalUrl) ==> url == req.scheme + "://" + RequestHost(settings, req) + "/files/" + token
    ensures EndsWith(url, "/files/" + token)
  {
    var suffix := "/files/" + token;
    var base := if Truthy(settings.externalUrl) then RStripChar(settings.externalUrl.value, '/')
                else req.scheme + "://" + RequestHost(settings, req);
    assert (base + suffix)[|base|..] == suffix;
    assert base + suffix == base + "/files/" + token;
    base + suffix
  }

  /** helpers.py:99-102: the configured external URL without its trailing
      slashes, else `http://HTTP_HOST:HTTP_PORT`; either way it does not
      end in `/`. */
  function PublicBaseUrl(settings: Settings): (base: string)
    ensures Truthy(settings.externalUrl) ==> base == RStripChar(settings.externalUrl.value, '/')
    ensures !Truthy(settings.externalUrl) ==>
              base == "http://" + settings.httpHost + ":" + IntToString(settings.httpPort)
    ensures |base| == 0 || base[|base| - 1] != '/'
  {
    if Truthy(settings.externalUrl) then RStripChar(settings.externalUrl.value, '/')
    else
      var digits := IntToString(settings.httpPort);
      var base := "http://" + settings.httpHost + ":" + digits;
      assert base[|base| - 1] == digits[|digits| - 1];
      base
  }

  /** helpers.py:105-107: the public base URL followed by `/files/<token>`;
      the second `rstrip` finds nothing to remove. */
  function FilePageUrl(settings: Settings, token: string): (url: string)
    ensures url == PublicBaseUrl(settings) + "/files/" + token
    ensures Truthy(settings.externalUrl) ==> url == RStripChar(settings.externalUrl.value, '/') + "/files/" + token
    ensures EndsWith(url, "/files/" + token)
  {
    var base := RStripChar(PublicBaseUrl(settings), '/');
    assert base == PublicBaseUrl(settings);
    assert (base + "/files/" + token)[|base|..] == "/files/" + token;
    base + "/files/" + token
  }

  /** With an external URL configured, the listing's page URL and the
      upload response's URL coincide for every request; without one, the
      page URL is built from the configured host and port. */
  lemma FileUrlsAgree(settings: Settings, req: Request, token: string)
    ensures Truthy(settings.externalUrl) ==> FilePageUrl(settings, token) == MakeFileUrl(settings, req, token)
    ensures !Truthy(settings.externalUrl) ==>
      FilePageUrl(settings, token) ==
        "http://" + settings.httpHost + ":" + IntToString(settings.httpPort) + "/files/" + token
  {
  }

  /** The token can be read back from a file URL: it is the last
      `/`-separated part. */
  lemma TokenIsLastUrlPart(settings: Settings, req: Request, token: string)
    requires '/' !in token
    ensures var parts := SplitOn(MakeFileUrl(settings, req, token), "/");
            parts[|parts| - 1] == token
  {
    var url := MakeFileUrl(settings, req, token);
    var prefix := url[..|url| - |token| - 1];
    assert url == prefix + ['/'] + token;
    SplitOnCharLast(prefix, '/', token);
  }
}
