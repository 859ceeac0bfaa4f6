/**
 * tryClipboard: what the "paste from clipboard" button of the add-task
 * dialog turns the clipboard into. The external steps (the platform, the
 * pngpaste tool, the clipboard read, url.Parse, base64 decoding, file
 * system checks and writes, the clock that names new files) are inputs.
 */
module Clipboard {
  import opened Results
  import opened GoText
  import opened Tasks
  import opened Attachments

  datatype Platform = Darwin | Windows | OtherUnix

  /** The answers of the outside world during one paste. */
  datatype Surroundings = Surroundings(
    platform: Platform,
    stamp: Bytes,             // decimal time.Now().UnixNano(), the start of every new file name
    pngpaste: Option<Bytes>,  // what `pngpaste -` prints, when the tool is installed and succeeds
    pngWritten: bool,         // whether writing that image into the attachment directory succeeds
    text: Bytes,              // clipboard.ReadAll, empty when it fails
    parsesAsData: bool,       // whether url.Parse accepts the trimmed text with scheme "data"
    payload: Option<Bytes>,   // base64 decoding of the text after the first comma
    payloadWritten: bool,     // whether writing the decoded bytes succeeds
    fileExists: bool,         // fileExists of the trimmed text
    copied: bool)             // whether copyFile of the trimmed text succeeds

  /**
   * The three outcomes of tryClipboard: a new file in the attachment
   * directory (its name and kind), text to prefill the entry with, or the
   * "clipboard is empty" error.
   */
  datatype Resolution =
    | Attachment(name: Bytes, kind: AttachmentType)
    | Prefill(text: Bytes)
    | ClipboardEmpty

  /** "_clipboard." */
  const ClipboardInfix: Bytes :=
    [B('_'), B('c'), B('l'), B('i'), B('p'), B('b'), B('o'), B('a'), B('r'), B('d'), B('.')]

  /** Step 1: on macOS, a non-empty image from pngpaste that could be written. */
  predicate PastedPng(env: Surroundings) {
    env.platform == Darwin && env.pngpaste.Some? && |env.pngpaste.value| > 0 && env.pngWritten
  }

  /** The trimmed clipboard text starts with "data:" in any letter case. */
  predicate IsDataUrl(txt: Bytes) {
    HasPrefix(LowerAscii(txt), DataScheme)
  }

  /**
   * tryClipboard. A pasted image wins; otherwise the trimmed text decides:
   * empty text is an error; a data URL becomes a decoded file, or stays
   * text when decoding or writing fails; a path to an existing file becomes
   * a copy, or stays text when copying fails; anything else is text.
   */
  function Resolve(env: Surroundings): (r: Resolution)
    ensures r.ClipboardEmpty? <==>
      !PastedPng(env) && forall i | 0 <= i < |env.text| :: IsAsciiSpace(env.text[i])
    ensures r.Prefill? ==> r.text == TrimAsciiSpace(env.text) && r.text != []
    ensures r.Attachment? ==> r.kind == KindOfFile(r.name, env.platform == Windows)
    ensures r.Attachment? && !PastedPng(env) ==>
      IsDataUrl(TrimAsciiSpace(env.text))
      || (LooksLikePath(TrimAsciiSpace(env.text), env.platform == Windows) && env.fileExists && env.copied)
  {
    var windows := env.platform == Windows;
    if PastedPng(env) then
      var name := env.stamp + ClipboardInfix + [B('p'), B('n'), B('g')];
      ClipboardNameKind(env.stamp, [B('p'), B('n'), B('g')], windows);
      assert [B('.')] + [B('p'), B('n'), B('g')] == DotPng;
      Attachment(name, Image)
    else
      var txt := TrimAsciiSpace(env.text);
      if txt == [] then ClipboardEmpty
      else if IsDataUrl(txt) then
        match DecodeDataUrl(txt, env.parsesAsData, env.payload, env.payloadWritten)
        case Some(stored) =>
          var name := env.stamp + ClipboardInfix + stored.ext;
          ClipboardNameKind(env.stamp, stored.ext, windows);
          Attachment(name, stored.kind)
        case None => Prefill(txt)
      else if LooksLikePath(txt, windows) && env.fileExists then
        if env.copied then
          var name := env.stamp + [B('_')] + FinalElement(txt, windows);
          Attachment(name, KindOfFile(name, windows))
        else Prefill(txt)
      else Prefill(txt)
  }

  /** Step 1: an image from pngpaste that could be written becomes "<stamp>_clipboard.png", an image. */
  lemma PastedImageWins(env: Surroundings)
    requires PastedPng(env)
    ensures Resolve(env) == Attachment(env.stamp + ClipboardInfix + [B('p'), B('n'), B('g')], Image)
  {
  }

  /**
   * A data URL: the decoded file "<stamp>_clipboard.<ext>" with the kind the
   * media-type switch gives, or the trimmed text when it cannot be stored.
   */
  lemma DataUrlOutcome(env: Surroundings)
    requires !PastedPng(env) && IsDataUrl(TrimAsciiSpace(env.text))
    ensures
      var txt := TrimAsciiSpace(env.text);
      var decoded := DecodeDataUrl(txt, env.parsesAsData, env.payload, env.payloadWritten);
      Resolve(env) ==
        if decoded.Some? then Attachment(env.stamp + ClipboardInfix + decoded.value.ext, decoded.value.kind)
        else Prefill(txt)
  {
  }

  /**
   * The path of an existing file: the copy "<stamp>_<final element>",
   * classified by its name, or the trimmed text when copying fails.
   */
  lemma PathOutcome(env: Surroundings)
    requires !PastedPng(env) && TrimAsciiSpace(env.text) != [] && !IsDataUrl(TrimAsciiSpace(env.text))
    requires LooksLikePath(TrimAsciiSpace(env.text), env.platform == Windows) && env.fileExists
    ensures
      var txt := TrimAsciiSpace(env.text);
      var name := env.stamp + [B('_')] + FinalElement(txt, env.platform == Windows);
      Resolve(env) == if env.copied then Attachment(name, KindOfFile(name, env.platform == Windows)) else Prefill(txt)
  {
  }

  /** Any other non-blank text is prefill text, whatever the copy would have done. */
  lemma PlainTextIsPrefill(env: Surroundings)
    requires !PastedPng(env) && TrimAsciiSpace(env.text) != [] && !IsDataUrl(TrimAsciiSpace(env.text))
    requires !(LooksLikePath(TrimAsciiSpace(env.text), env.platform == Windows) && env.fileExists)
    ensures Resolve(env) == Prefill(TrimAsciiSpace(env.text))
  {
  }

  /**
   * A name "<stamp>_clipboard.<ext>" is classified by its extension <ext>,
   * whatever the stamp.
   */
  lemma ClipboardNameKind(stamp: Bytes, ext: Bytes, windows: bool)
    requires ext in StoredExtensions
    ensures KindOfFile(stamp + ClipboardInfix + ext, windows) == KindOfExtension([B('.')] + ext)
  {
    var base := stamp + ClipboardInfix[..10];
    assert stamp + ClipboardInfix + ext == base + [B('.')] + ext;
    assert |ext| == 3 && B('.') !in ext && NoSeparator(ext, windows);
    ExtOfDottedName(base, ext, windows);
    assert LowerAscii([B('.')] + ext) == [B('.')] + ext;
  }

  /** Every new file's name starts with the stamp of the paste that made it. */
  lemma NamesStartWithStamp(env: Surroundings)
    requires Resolve(env).Attachment?
    ensures HasPrefix(Resolve(env).name, env.stamp)
  {
    if PastedPng(env) {
      PastedNameStartsWithStamp(env);
    } else if IsDataUrl(TrimAsciiSpace(env.text)) {
      DecodedNameStartsWithStamp(env);
    } else {
      CopyNameStartsWithStamp(env);
    }
  }

  /** The pasted image's name starts with the stamp. */
  lemma PastedNameStartsWithStamp(env: Surroundings)
    requires PastedPng(env)
    ensures Resolve(env).Attachment? && HasPrefix(Resolve(env).name, env.stamp)
  {
    PastedImageWins(env);
    var rest := ClipboardInfix + [B('p'), B('n'), B('g')];
    assert (env.stamp + rest)[..|env.stamp|] == env.stamp;
  }

  /** A decoded data URL's file name starts with the stamp. */
  lemma DecodedNameStartsWithStamp(env: Surroundings)
    requires !PastedPng(env) && IsDataUrl(TrimAsciiSpace(env.text)) && Resolve(env).Attachment?
    ensures HasPrefix(Resolve(env).name, env.stamp)
  {
    var txt := TrimAsciiSpace(env.text);
    var decoded := DecodeDataUrl(txt, env.parsesAsData, env.payload, env.payloadWritten);
    DataUrlOutcome(env);
    var rest := ClipboardInfix + decoded.value.ext;
    assert (env.stamp + rest)[..|env.stamp|] == env.stamp;
  }

  /** A copied file's name starts with the stamp. */
  lemma CopyNameStartsWithStamp(env: Surroundings)
    requires !PastedPng(env) && !IsDataUrl(TrimAsciiSpace(env.text)) && Resolve(env).Attachment?
    ensures HasPrefix(Resolve(env).name, env.stamp)
  {
    var txt := TrimAsciiSpace(env.text);
    PathOutcome(env);
    var rest := [B('_')] + FinalElement(txt, env.platform == Windows);
    assert (env.stamp + rest)[..|env.stamp|] == env.stamp;
  }

  /**
   * The text names an existing file that is copied: the copy is named
   * "<stamp>_<final element>" and classified like the path it came from,
   * given a dot-free stamp.
   */
  lemma CopyIsClassifiedLikeSource(env: Surroundings)
    requires B('.') !in env.stamp
    requires !PastedPng(env) && TrimAsciiSpace(env.text) != [] && !IsDataUrl(TrimAsciiSpace(env.text))
    requires LooksLikePath(TrimAsciiSpace(env.text), env.platform == Windows) && env.fileExists && env.copied
    ensures Resolve(env) == Attachment(
      env.stamp + [B('_')] + FinalElement(TrimAsciiSpace(env.text), env.platform == Windows),
      KindOfFile(TrimAsciiSpace(env.text), env.platform == Windows))
  {
    StoredCopyKeepsKind(env.stamp, TrimAsciiSpace(env.text), env.platform == Windows);
  }

  /** A failed decode, write or copy falls back to the trimmed text; it is never an error. */
  lemma FailuresFallBackToText(env: Surroundings)
    requires !PastedPng(env) && TrimAsciiSpace(env.text) != []
    requires (IsDataUrl(TrimAsciiSpace(env.text)) && !env.payloadWritten)
          || (!IsDataUrl(TrimAsciiSpace(env.text)) && !env.copied)
    ensures Resolve(env) == Prefill(TrimAsciiSpace(env.text))
  {
  }

  /** Off macOS the clipboard image step is skipped entirely. */
  lemma NoImageStepOffMac(env: Surroundings)
    requires env.platform != Darwin
    ensures Resolve(env) == Resolve(env.(pngpaste := None, pngWritten := false))
  {
  }
}
