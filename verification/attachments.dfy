/**
 * Classification of clipboard text and attachment files: the path
 * heuristic `looksLikePath`, the file-extension table of `tryClipboard` and
 * the media-type switch of `decodeDataURLToFile`.
 */
module Attachments {
  import opened Results
  import opened GoText
  import opened Tasks

  // The extensions of the extension table, with their dot.
  const DotPng: Bytes := [B('.'), B('p'), B('n'), B('g')]
  const DotJpg: Bytes := [B('.'), B('j'), B('p'), B('g')]
  const DotJpeg: Bytes := [B('.'), B('j'), B('p'), B('e'), B('g')]
  const DotM4a: Bytes := [B('.'), B('m'), B('4'), B('a')]
  const DotMp3: Bytes := [B('.'), B('m'), B('p'), B('3')]

  // The media-type prefixes of the media-type switch.
  const ImagePng: Bytes := [B('i'), B('m'), B('a'), B('g'), B('e'), B('/'), B('p'), B('n'), B('g')]
  const ImageJpeg: Bytes := [B('i'), B('m'), B('a'), B('g'), B('e'), B('/'), B('j'), B('p'), B('e'), B('g')]
  const AudioMpeg: Bytes := [B('a'), B('u'), B('d'), B('i'), B('o'), B('/'), B('m'), B('p'), B('e'), B('g')]
  const AudioMp4: Bytes := [B('a'), B('u'), B('d'), B('i'), B('o'), B('/'), B('m'), B('p'), B('4')]
  const AudioXM4a: Bytes :=
    [B('a'), B('u'), B('d'), B('i'), B('o'), B('/'), B('x'), B('-'), B('m'), B('4'), B('a')]

  /** "data:" */
  const DataScheme: Bytes := [B('d'), B('a'), B('t'), B('a'), B(':')]
  /** ";base64" */
  const Base64Marker: Bytes := [B(';'), B('b'), B('a'), B('s'), B('e'), B('6'), B('4')]

  /**
   * looksLikePath. On Windows: a drive prefix such as "C:\" or "C:/" (any
   * byte before the colon), or a UNC prefix "\\". Elsewhere: a prefix "/",
   * "./", "../" or "~".
   */
  predicate LooksLikePath(s: Bytes, windows: bool): (r: bool)
    ensures r ==> s != []
    ensures r && windows ==> |s| >= 2 && (s[1] == B(':') || s[1] == B('\\'))
    ensures r && !windows ==> s[0] == B('/') || s[0] == B('.') || s[0] == B('~')
  {
    if windows then
      (|s| > 2 && s[1] == B(':') && (s[2] == B('\\') || s[2] == B('/')))
      || HasPrefix(s, [B('\\'), B('\\')])
    else
      HasPrefix(s, [B('/')]) || HasPrefix(s, [B('.'), B('/')])
      || HasPrefix(s, [B('.'), B('.'), B('/')]) || HasPrefix(s, [B('~')])
  }

  /**
   * The POSIX heuristic read byte by byte: a path starts with '/' or '~', or
   * with one or two dots followed by '/'.
   */
  lemma PosixPathByLeadingBytes(s: Bytes)
    ensures LooksLikePath(s, false) <==>
      |s| > 0 && (s[0] == B('/') || s[0] == B('~')
        || (s[0] == B('.') && |s| > 1
            && (s[1] == B('/') || (s[1] == B('.') && |s| > 2 && s[2] == B('/')))))
  {
    if |s| > 2 { assert s[..3] == [s[0], s[1], s[2]]; }
    if |s| > 1 { assert s[..2] == [s[0], s[1]]; }
    if |s| > 0 { assert s[..1] == [s[0]]; }
  }

  /**
   * The Windows heuristic read byte by byte: a drive prefix needs three
   * bytes, a UNC prefix two; the byte before the colon is not inspected.
   */
  lemma WindowsPathByLeadingBytes(s: Bytes)
    ensures LooksLikePath(s, true) <==>
      (|s| >= 3 && s[1] == B(':') && (s[2] == B('\\') || s[2] == B('/')))
      || (|s| >= 2 && s[0] == B('\\') && s[1] == B('\\'))
  {
    if |s| >= 2 { assert s[..2] == [s[0], s[1]]; }
  }

  /** os.IsPathSeparator */
  predicate IsSeparator(b: byte, windows: bool) {
    b == B('/') || (windows && b == B('\\'))
  }

  predicate NoSeparator(s: Bytes, windows: bool) {
    forall i | 0 <= i < |s| :: !IsSeparator(s[i], windows)
  }

  /** The final element of a path: what follows its last separator. */
  function FinalElement(path: Bytes, windows: bool): (r: Bytes)
    ensures IsSuffix(r, path)
    ensures NoSeparator(r, windows)
    decreases |path|
  {
    if path == [] || IsSeparator(path[|path| - 1], windows) then []
    else FinalElement(path[..|path| - 1], windows) + [path[|path| - 1]]
  }

  /**
   * The final element is the longest separator-free suffix: a path longer
   * than it has a separator right before it.
   */
  lemma {:induction false} FinalElementFollowsSeparator(path: Bytes, windows: bool)
    ensures var r := FinalElement(path, windows);
      |r| < |path| ==> IsSeparator(path[|path| - |r| - 1], windows)
    decreases |path|
  {
    if path != [] && !IsSeparator(path[|path| - 1], windows) {
      var init := path[..|path| - 1];
      FinalElementFollowsSeparator(init, windows);
      var r := FinalElement(init, windows);
      if |r| < |init| {
        assert path[|path| - (|r| + 1) - 1] == init[|init| - |r| - 1];
      }
    }
  }

  /**
   * filepath.Ext: the suffix of the final path element from its last '.',
   * or nothing when the final element has no '.'.
   */
  function Ext(path: Bytes, windows: bool): (r: Bytes)
    ensures IsSuffix(r, path)
    ensures r != [] ==> r[0] == B('.')
    ensures forall i | 0 <= i < |r| :: !IsSeparator(r[i], windows) && (i > 0 ==> r[i] != B('.'))
    decreases |path|
  {
    if path == [] then []
    else
      var last := path[|path| - 1];
      if IsSeparator(last, windows) then []
      else if last == B('.') then [last]
      else
        var e := Ext(path[..|path| - 1], windows);
        if e == [] then [] else e + [last]
  }

  /** The extension is empty exactly when the final element has no dot. */
  lemma {:induction false} ExtEmptyIffNoDot(path: Bytes, windows: bool)
    ensures Ext(path, windows) == [] <==> B('.') !in FinalElement(path, windows)
    decreases |path|
  {
    if path != [] && !IsSeparator(path[|path| - 1], windows) {
      var init := path[..|path| - 1];
      var last := path[|path| - 1];
      assert FinalElement(path, windows) == FinalElement(init, windows) + [last];
      ExtEmptyIffNoDot(init, windows);
    }
  }

  /** The extension depends only on the final element. */
  lemma {:induction false} ExtOfFinalElement(path: Bytes, windows: bool)
    ensures Ext(FinalElement(path, windows), windows) == Ext(path, windows)
    decreases |path|
  {
    if path != [] && !IsSeparator(path[|path| - 1], windows) {
      var init := path[..|path| - 1];
      var last := path[|path| - 1];
      var fi := FinalElement(init, windows);
      var f := fi + [last];
      assert FinalElement(path, windows) == f;
      assert f[|f| - 1] == last && f[..|f| - 1] == fi;
      ExtOfFinalElement(init, windows);
    }
  }

  /**
   * A prefix without a dot, such as the "<nanoseconds>_" of a stored copy,
   * never changes the extension.
   */
  lemma {:induction false} ExtIgnoresDotFreePrefix(prefix: Bytes, name: Bytes, windows: bool)
    requires B('.') !in prefix
    ensures Ext(prefix + name, windows) == Ext(name, windows)
    decreases |name|
  {
    var whole := prefix + name;
    if name == [] {
      assert whole == prefix;
    } else {
      assert whole[|whole| - 1] == name[|name| - 1];
      assert whole[..|whole| - 1] == prefix + name[..|name| - 1];
      ExtIgnoresDotFreePrefix(prefix, name[..|name| - 1], windows);
    }
  }

  /** A name ending in '.' and a dot-free, separator-free tail has that dotted tail as extension. */
  lemma {:induction false} ExtOfDottedName(base: Bytes, tail: Bytes, windows: bool)
    requires B('.') !in tail && NoSeparator(tail, windows)
    ensures Ext(base + [B('.')] + tail, windows) == [B('.')] + tail
    decreases |tail|
  {
    var name := base + [B('.')] + tail;
    if tail == [] {
      assert name[|name| - 1] == B('.');
    } else {
      var init := tail[..|tail| - 1];
      var last := tail[|tail| - 1];
      assert name[|name| - 1] == last;
      assert name[..|name| - 1] == base + [B('.')] + init;
      ExtOfDottedName(base, init, windows);
      assert [B('.')] + tail == ([B('.')] + init) + [last];
    }
  }

  /** The extension table: png, jpg, jpeg are images; m4a, mp3 are audio. */
  function KindOfExtension(ext: Bytes): (r: AttachmentType)
    ensures r == Image <==> ext == DotPng || ext == DotJpg || ext == DotJpeg
    ensures r == Audio <==> ext == DotM4a || ext == DotMp3
    ensures r != NoAttachment ==> 4 <= |ext| <= 5 && ext[0] == B('.')
  {
    if ext == DotPng || ext == DotJpg || ext == DotJpeg then Image
    else if ext == DotM4a || ext == DotMp3 then Audio
    else NoAttachment
  }

  /** The kind of a file, by the lower-cased extension of its name. */
  function KindOfFile(name: Bytes, windows: bool): (r: AttachmentType)
    ensures Ext(name, windows) == [] ==> r == NoAttachment
    ensures r != NoAttachment ==> 4 <= |Ext(name, windows)| <= 5
  {
    KindOfExtension(LowerAscii(Ext(name, windows)))
  }

  /**
   * The extension table on a name "<base>.<tail>" whose tail has no dot or
   * separator: an image exactly for the tails png, jpg and jpeg, audio
   * exactly for m4a and mp3, in any letter case.
   */
  lemma KindOfDottedName(base: Bytes, tail: Bytes, windows: bool)
    requires B('.') !in tail && NoSeparator(tail, windows)
    ensures KindOfFile(base + [B('.')] + tail, windows) == Image <==>
      LowerAscii(tail) in {DotPng[1..], DotJpg[1..], DotJpeg[1..]}
    ensures KindOfFile(base + [B('.')] + tail, windows) == Audio <==>
      LowerAscii(tail) in {DotM4a[1..], DotMp3[1..]}
  {
    ExtOfDottedName(base, tail, windows);
    var low := LowerAscii([B('.')] + tail);
    assert low == [B('.')] + LowerAscii(tail);
    assert low[1..] == LowerAscii(tail);
  }

  /** Upper-casing a path upper-cases its extension and nothing else about it. */
  lemma {:induction false} ExtOfUpper(path: Bytes, windows: bool)
    ensures Ext(UpperAscii(path), windows) == UpperAscii(Ext(path, windows))
    decreases |path|
  {
    var up := UpperAscii(path);
    if path == [] {
      assert up == [];
    } else {
      var init := path[..|path| - 1];
      var last := path[|path| - 1];
      assert path == init + [last];
      UpperOfSnoc(init, last);
      assert up[..|up| - 1] == UpperAscii(init);
      assert up[|up| - 1] == UpperByte(last);
      if IsSeparator(last, windows) {
        assert Ext(up, windows) == [];
      } else if last == B('.') {
        assert Ext(up, windows) == [B('.')];
      } else {
        ExtOfUpper(init, windows);
        var e := Ext(init, windows);
        assert Ext(up, windows) == if Ext(UpperAscii(init), windows) == [] then []
                                   else Ext(UpperAscii(init), windows) + [UpperByte(last)];
        if e != [] {
          UpperOfSnoc(e, last);
        }
      }
    }
  }

  /** Classification by extension ignores the letter case of the file name. */
  lemma KindOfFileIgnoresCase(name: Bytes, windows: bool)
    ensures KindOfFile(UpperAscii(name), windows) == KindOfFile(name, windows)
  {
    ExtOfUpper(name, windows);
    LowerOfUpper(Ext(name, windows));
  }

  /**
   * A file copied into the attachment directory under the name
   * "<stamp>_<final element of the source>" is classified like its source,
   * whenever the stamp has no dot (a decimal time stamp has none).
   */
  lemma StoredCopyKeepsKind(stamp: Bytes, source: Bytes, windows: bool)
    requires B('.') !in stamp
    ensures KindOfFile(stamp + [B('_')] + FinalElement(source, windows), windows)
         == KindOfFile(source, windows)
  {
    ExtIgnoresDotFreePrefix(stamp + [B('_')], FinalElement(source, windows), windows);
    ExtOfFinalElement(source, windows);
  }

  /** The extensions, without the dot, that decoded data-URL files receive. */
  const StoredExtensions: set<Bytes> := {
    [B('p'), B('n'), B('g')], [B('j'), B('p'), B('g')], [B('m'), B('p'), B('3')],
    [B('m'), B('4'), B('a')], [B('b'), B('i'), B('n')]}

  /**
   * The media-type switch: the extension given to decoded data-URL bytes
   * and their kind, by the prefix of the declared media type.
   */
  function KindOfMediaType(media: Bytes): (r: (Bytes, AttachmentType))
    ensures HasPrefix(media, ImagePng) ==> r == ([B('p'), B('n'), B('g')], Image)
    ensures !HasPrefix(media, ImagePng) && HasPrefix(media, ImageJpeg) ==> r == ([B('j'), B('p'), B('g')], Image)
    ensures !HasPrefix(media, ImagePng) && !HasPrefix(media, ImageJpeg) && HasPrefix(media, AudioMpeg)
      ==> r == ([B('m'), B('p'), B('3')], Audio)
    ensures !HasPrefix(media, ImagePng) && !HasPrefix(media, ImageJpeg) && !HasPrefix(media, AudioMpeg)
      && (HasPrefix(media, AudioMp4) || HasPrefix(media, AudioXM4a))
      ==> r == ([B('m'), B('4'), B('a')], Audio)
    ensures !HasPrefix(media, ImagePng) && !HasPrefix(media, ImageJpeg) && !HasPrefix(media, AudioMpeg)
      && !HasPrefix(media, AudioMp4) && !HasPrefix(media, AudioXM4a)
      ==> r == ([B('b'), B('i'), B('n')], NoAttachment)
    ensures r.0 in StoredExtensions
    ensures r.1 == Image <==> HasPrefix(media, ImagePng) || HasPrefix(media, ImageJpeg)
    ensures r.1 == Audio <==>
      !HasPrefix(media, ImagePng) && !HasPrefix(media, ImageJpeg)
      && (HasPrefix(media, AudioMpeg) || HasPrefix(media, AudioMp4) || HasPrefix(media, AudioXM4a))
  {
    if HasPrefix(media, ImagePng) then ([B('p'), B('n'), B('g')], Image)
    else if HasPrefix(media, ImageJpeg) then ([B('j'), B('p'), B('g')], Image)
    else if HasPrefix(media, AudioMpeg) then ([B('m'), B('p'), B('3')], Audio)
    else if HasPrefix(media, AudioMp4) || HasPrefix(media, AudioXM4a) then ([B('m'), B('4'), B('a')], Audio)
    else ([B('b'), B('i'), B('n')], NoAttachment)
  }

  /**
   * The two tables agree: the extension the media-type switch picks is
   * classified by the extension table as the kind the switch reports.
   */
  lemma MediaTableAgreesWithExtensionTable(media: Bytes)
    ensures KindOfExtension([B('.')] + KindOfMediaType(media).0) == KindOfMediaType(media).1
  {
    var (ext, kind) := KindOfMediaType(media);
    var dotted := [B('.')] + ext;
    assert dotted == [B('.'), ext[0], ext[1], ext[2]];
  }

  /**
   * The media type of a data URL's header ("data:image/png;base64"), as the
   * code extracts it: the text before the first ';' with a literal,
   * lower-case "data:" removed.
   */
  function MediaTypeAsWritten(meta: Bytes): (r: Bytes)
    ensures HasPrefix(meta, DataScheme) ==> DataScheme + r == BeforeFirst(meta, B(';'))
    ensures !HasPrefix(meta, DataScheme) ==> r == BeforeFirst(meta, B(';'))
    ensures !HasPrefix(meta, DataScheme) && B(';') !in meta ==> r == meta
  {
    SchemeKeptBeforeSemicolon(meta);
    TrimPrefix(BeforeFirst(meta, B(';')), DataScheme)
  }

  /** The scheme "data:" in any letter case. */
  predicate HasDataScheme(s: Bytes) {
    |s| >= 5 && LowerAscii(s[..5]) == DataScheme
  }

  /**
   * The media type of a data URL's header with the scheme removed in any
   * letter case, as the case-insensitive scheme test before it intends.
   */
  function MediaType(meta: Bytes): (r: Bytes)
    ensures HasDataScheme(meta) ==> meta[..5] + r == BeforeFirst(meta, B(';'))
    ensures !HasDataScheme(meta) ==> r == BeforeFirst(meta, B(';'))
    ensures !HasDataScheme(meta) && B(';') !in meta ==> r == meta
  {
    var head := BeforeFirst(meta, B(';'));
    SchemeKeptBeforeSemicolon(meta);
    assert |head| >= 5 ==> head[..5] == meta[..5];
    if HasDataScheme(head) then head[5..] else head
  }

  /** The first five bytes of a header that starts with the scheme contain no ';'. */
  lemma SchemeKeptBeforeSemicolon(meta: Bytes)
    ensures HasDataScheme(meta) ==>
      HasDataScheme(BeforeFirst(meta, B(';')))
      && BeforeFirst(meta, B(';')) == meta[..5] + BeforeFirst(meta[5..], B(';'))
    ensures HasPrefix(meta, DataScheme) ==>
      HasDataScheme(meta) && HasPrefix(BeforeFirst(meta, B(';')), DataScheme)
  {
    if HasPrefix(meta, DataScheme) {
      assert LowerAscii(DataScheme) == DataScheme;
    }
    if HasDataScheme(meta) {
      SchemeHasNoSemicolon(meta[..5]);
      assert meta == meta[..5] + meta[5..];
      BeforeFirstAfterPrefix(meta[..5], meta[5..], B(';'));
      assert BeforeFirst(meta, B(';'))[..5] == meta[..5];
    }
  }

  lemma SchemeHasNoSemicolon(scheme: Bytes)
    requires |scheme| == 5 && LowerAscii(scheme) == DataScheme
    ensures B(';') !in scheme
  {
    forall i | 0 <= i < 5
      ensures scheme[i] != B(';')
    {
      assert LowerByte(scheme[i]) == DataScheme[i];
    }
  }

  /** Where the scheme is written in lower case, both extractions agree. */
  lemma MediaTypeAgreesOnLowerScheme(meta: Bytes)
    requires HasPrefix(meta, DataScheme)
    ensures MediaType(meta) == MediaTypeAsWritten(meta)
  {
    assert meta[..5] == DataScheme;
    assert LowerAscii(DataScheme) == DataScheme;
  }

  /** The corrected extraction reads the same media type whatever the scheme's letter case. */
  lemma MediaTypeIgnoresSchemeCase(scheme: Bytes, rest: Bytes)
    requires |scheme| == 5 && LowerAscii(scheme) == DataScheme
    ensures MediaType(scheme + rest) == MediaType(DataScheme + rest)
  {
    assert (scheme + rest)[..5] == scheme;
    assert (DataScheme + rest)[..5] == DataScheme;
    assert LowerAscii(DataScheme) == DataScheme;
  }

  /** The outcome of storing a decoded data URL: the extension given to the file and its kind. */
  datatype Stored = Stored(ext: Bytes, kind: AttachmentType)

  /**
   * The gates of decodeDataURLToFile, with the library steps as parameters:
   * `parsesAsData` is whether url.Parse accepts the text with scheme "data",
   * `payload` the base64 decoding of the text after the first comma (None
   * when it is not valid base64), `written` whether the file write
   * succeeds. The header before the first comma must mention ";base64" and
   * the payload must be non-empty. The result is that header.
   */
  function AcceptedHeader(url: Bytes, parsesAsData: bool, payload: Option<Bytes>, written: bool)
    : (r: Option<Bytes>)
    ensures r.Some? <==>
      parsesAsData && B(',') in url && payload.Some? && |payload.value| > 0 && written
      && Contains(BeforeFirst(url, B(',')), Base64Marker)
    ensures r.Some? ==> r.value == BeforeFirst(url, B(','))
  {
    if !parsesAsData then None
    else match SplitAtFirst(url, B(','))
      case None => None
      case Some((meta, _)) =>
        assert url == meta + ([B(',')] + url[|meta| + 1..]);
        BeforeFirstAfterPrefix(meta, [B(',')] + url[|meta| + 1..], B(','));
        if !Contains(meta, Base64Marker) then None
        else if payload.None? || |payload.value| == 0 then None
        else if written then Some(meta) else None
  }

  /**
   * decodeDataURLToFile as written: a file is stored when every gate
   * passes, with the extension and kind the media-type switch gives the
   * media type the code extracts (a lower-case "data:" removed).
   */
  function DecodeDataUrl(url: Bytes, parsesAsData: bool, payload: Option<Bytes>, written: bool)
    : (r: Option<Stored>)
    ensures r.Some? <==>
      parsesAsData && B(',') in url && payload.Some? && |payload.value| > 0 && written
      && Contains(BeforeFirst(url, B(',')), Base64Marker)
    ensures r.Some? ==> r.value.ext in StoredExtensions
    ensures r.Some? ==> KindOfExtension([B('.')] + r.value.ext) == r.value.kind
    ensures r.Some? ==>
      (r.value.ext, r.value.kind) == KindOfMediaType(MediaTypeAsWritten(BeforeFirst(url, B(','))))
  {
    match AcceptedHeader(url, parsesAsData, payload, written)
    case None => None
    case Some(meta) =>
      var (ext, kind) := KindOfMediaType(MediaTypeAsWritten(meta));
      MediaTableAgreesWithExtensionTable(MediaTypeAsWritten(meta));
      Some(Stored(ext, kind))
  }

  /**
   * decodeDataURLToFile corrected: the same gates, with the media type read
   * after a scheme in any letter case.
   */
  function DecodeDataUrlCorrected(url: Bytes, parsesAsData: bool, payload: Option<Bytes>, written: bool)
    : (r: Option<Stored>)
    ensures r.Some? <==>
      parsesAsData && B(',') in url && payload.Some? && |payload.value| > 0 && written
      && Contains(BeforeFirst(url, B(',')), Base64Marker)
    ensures r.Some? ==> r.value.ext in StoredExtensions
    ensures r.Some? ==> KindOfExtension([B('.')] + r.value.ext) == r.value.kind
    ensures r.Some? ==> (r.value.ext, r.value.kind) == KindOfMediaType(MediaType(BeforeFirst(url, B(','))))
  {
    match AcceptedHeader(url, parsesAsData, payload, written)
    case None => None
    case Some(meta) =>
      var (ext, kind) := KindOfMediaType(MediaType(meta));
      MediaTableAgreesWithExtensionTable(MediaType(meta));
      Some(Stored(ext, kind))
  }

  /** For a URL whose scheme is written "data:", the corrected decoding stores what the code stores. */
  lemma DecodingsAgreeOnLowerScheme(url: Bytes, parsesAsData: bool, payload: Option<Bytes>, written: bool)
    requires HasPrefix(url, DataScheme)
    ensures DecodeDataUrlCorrected(url, parsesAsData, payload, written)
         == DecodeDataUrl(url, parsesAsData, payload, written)
  {
    assert url == DataScheme + url[5..];
    BeforeFirstAfterPrefix(DataScheme, url[5..], B(','));
    var meta := BeforeFirst(url, B(','));
    assert meta[..5] == DataScheme;
    MediaTypeAgreesOnLowerScheme(meta);
  }

  /** `m` occurs in any text that ends with it. */
  lemma {:induction false} ContainsAtEnd(p: Bytes, m: Bytes)
    ensures Contains(p + m, m)
    decreases |p|
  {
    if p == [] {
      assert (p + m)[..|m|] == m;
    } else {
      ContainsAtEnd(p[1..], m);
      assert (p + m)[1..] == p[1..] + m;
    }
  }

  /**
   * The code as written on a whole data URL: "DATA:image/png;base64,..."
   * with a non-empty payload is stored as a ".bin" file of no kind, while
   * the corrected decoding stores a PNG image.
   */
  lemma UpperCaseDataUrlStoredAsBin(rest: Bytes, payload: Bytes)
    requires |payload| > 0
    ensures
      var url := [B('D'), B('A'), B('T'), B('A'), B(':')] + ImagePng + Base64Marker + [B(',')] + rest;
      && DecodeDataUrl(url, true, Some(payload), true) == Some(Stored([B('b'), B('i'), B('n')], NoAttachment))
      && DecodeDataUrlCorrected(url, true, Some(payload), true) == Some(Stored([B('p'), B('n'), B('g')], Image))
  {
    var meta := [B('D'), B('A'), B('T'), B('A'), B(':')] + ImagePng + Base64Marker;
    var url := meta + [B(',')] + rest;
    assert B(',') !in meta;
    assert url == meta + ([B(',')] + rest);
    BeforeFirstAfterPrefix(meta, [B(',')] + rest, B(','));
    assert BeforeFirst([B(',')] + rest, B(',')) == [];
    assert BeforeFirst(url, B(',')) == meta;
    assert url[|meta|] == B(',');
    ContainsAtEnd([B('D'), B('A'), B('T'), B('A'), B(':')] + ImagePng, Base64Marker);
    UpperCaseSchemeLosesMediaType();
  }

  /**
   * The code as written: an upper-case scheme passes the case-insensitive
   * "data:" test, yet its media type keeps the scheme and falls through to
   * "bin" with no kind, while the corrected extraction reads "image/png".
   */
  lemma UpperCaseSchemeLosesMediaType()
    ensures
      var meta := [B('D'), B('A'), B('T'), B('A'), B(':')] + ImagePng + Base64Marker;
      && HasDataScheme(meta)
      && KindOfMediaType(MediaTypeAsWritten(meta)) == ([B('b'), B('i'), B('n')], NoAttachment)
      && KindOfMediaType(MediaType(meta)) == ([B('p'), B('n'), B('g')], Image)
  {
    var scheme := [B('D'), B('A'), B('T'), B('A'), B(':')];
    var meta := scheme + ImagePng + Base64Marker;
    var head := scheme + ImagePng;
    assert meta == head + Base64Marker;
    assert B(';') !in head;
    BeforeFirstAfterPrefix(head, Base64Marker, B(';'));
    assert BeforeFirst(Base64Marker, B(';')) == [];
    assert BeforeFirst(meta, B(';')) == head;
    assert meta[..5] == scheme;
    assert LowerAscii(scheme) == DataScheme;
    assert !HasPrefix(head, DataScheme);
    assert head[..5] == scheme;
    assert head[5..] == ImagePng;
    assert !HasPrefix(head, ImageJpeg) && !HasPrefix(head, AudioMpeg);
    assert !HasPrefix(head, AudioMp4) && !HasPrefix(head, AudioXM4a);
    assert HasPrefix(ImagePng, ImagePng);
  }
}
