/** The closed table of MIME types usable as `Accept` and `Content-Type`
    values: each constant, its Java name and the wire string it serialises to. */
module MimeTypes {

  /** The enum constants, in declaration order. */
  datatype MimeType =
    | Any
    | TextPlain
    | TextHtml
    | TextCss
    | TextJavascript
    | TextXml
    | ApplicationJson
    | ApplicationXml
    | ApplicationJavascript
    | ApplicationPdf
    | ApplicationZip
    | ApplicationOctetStream
    | ApplicationXWwwFormUrlencoded
    | ImageJpeg
    | ImagePng
    | ImageGif
    | ImageSvgXml
    | ImageBmp
    | ImageWebp
    | AudioMpeg
    | AudioOgg
    | AudioWav
    | AudioWebm
    | AudioAac
    | VideoMp4
    | VideoMpeg
    | VideoOgg
    | VideoWebm
    | VideoXMsvideo
    | MultipartFormData
    | MultipartByteranges
    | MultipartAlternative
    | MultipartMixed
    | MultipartRelated
    | MessageHttp
    | MessageImdnXml
    | MessagePartial
    | MessageRfc822
    | FontWoff
    | FontWoff2
    | FontTtf
    | FontOtf

  /** `getHTTPHeaderValue()`: the literal each constant is declared with,
      which is always a top-level type and a subtype around one slash. */
  function Wire(m: MimeType): string {
    MediaType(m) + "/" + Subtype(m)
  }

  /** The part of each wire literal before its slash. */
  function MediaType(m: MimeType): string {
    match m
    case Any => "*"
    case TextPlain => "text"
    case TextHtml => "text"
    case TextCss => "text"
    case TextJavascript => "text"
    case TextXml => "text"
    case ApplicationJson => "application"
    case ApplicationXml => "application"
    case ApplicationJavascript => "application"
    case ApplicationPdf => "application"
    case ApplicationZip => "application"
    case ApplicationOctetStream => "application"
    case ApplicationXWwwFormUrlencoded => "application"
    case ImageJpeg => "image"
    case ImagePng => "image"
    case ImageGif => "image"
    case ImageSvgXml => "image"
    case ImageBmp => "image"
    case ImageWebp => "image"
    case AudioMpeg => "audio"
    case AudioOgg => "audio"
    case AudioWav => "audio"
    case AudioWebm => "audio"
    case AudioAac => "audio"
    case VideoMp4 => "video"
    case VideoMpeg => "video"
    case VideoOgg => "video"
    case VideoWebm => "video"
    case VideoXMsvideo => "video"
    case MultipartFormData => "multipart"
    case MultipartByteranges => "multipart"
    case MultipartAlternative => "multipart"
    case MultipartMixed => "multipart"
    case MultipartRelated => "multipart"
    case MessageHttp => "message"
    case MessageImdnXml => "message"
    case MessagePartial => "message"
    case MessageRfc822 => "message"
    case FontWoff => "font"
    case FontWoff2 => "font"
    case FontTtf => "font"
    case FontOtf => "font"
  }

  /** The part of each wire literal after its slash. */
  function Subtype(m: MimeType): string {
    match m
    case Any => "*"
    case TextPlain => "plain"
    case TextHtml => "html"
    case TextCss => "css"
    case TextJavascript => "javascript"
    case TextXml => "xml"
    case ApplicationJson => "json"
    case ApplicationXml => "xml"
    case ApplicationJavascript => "javascript"
    case ApplicationPdf => "pdf"
    case ApplicationZip => "zip"
    case ApplicationOctetStream => "octet-stream"
    case ApplicationXWwwFormUrlencoded => "x-www-form-urlencoded"
    case ImageJpeg => "jpeg"
    case ImagePng => "png"
    case ImageGif => "gif"
    case ImageSvgXml => "svg+xml"
    case ImageBmp => "bmp"
    case ImageWebp => "webp"
    case AudioMpeg => "mpeg"
    case AudioOgg => "ogg"
    case AudioWav => "wav"
    case AudioWebm => "webm"
    case AudioAac => "aac"
    case VideoMp4 => "mp4"
    case VideoMpeg => "mpeg"
    case VideoOgg => "ogg"
    case VideoWebm => "webm"
    case VideoXMsvideo => "x-msvideo"
    case MultipartFormData => "form-data"
    case MultipartByteranges => "byteranges"
    case MultipartAlternative => "alternative"
    case MultipartMixed => "mixed"
    case MultipartRelated => "related"
    case MessageHttp => "http"
    case MessageImdnXml => "imdn+xml"
    case MessagePartial => "partial"
    case MessageRfc822 => "rfc822"
    case FontWoff => "woff"
    case FontWoff2 => "woff2"
    case FontTtf => "ttf"
    case FontOtf => "otf"
  }

  /** `name()`, which `String.valueOf` prints for an enum constant. */
  function Name(m: MimeType): string {
    match m
    case Any => "ANY"
    case TextPlain => "TEXT_PLAIN"
    case TextHtml => "TEXT_HTML"
    case TextCss => "TEXT_CSS"
    case TextJavascript => "TEXT_JAVASCRIPT"
    case TextXml => "TEXT_XML"
    case ApplicationJson => "APPLICATION_JSON"
    case ApplicationXml => "APPLICATION_XML"
    case ApplicationJavascript => "APPLICATION_JAVASCRIPT"
    case ApplicationPdf => "APPLICATION_PDF"
    case ApplicationZip => "APPLICATION_ZIP"
    case ApplicationOctetStream => "APPLICATION_OCTET_STREAM"
    case ApplicationXWwwFormUrlencoded => "APPLICATION_X_WWW_FORM_URLENCODED"
    case ImageJpeg => "IMAGE_JPEG"
    case ImagePng => "IMAGE_PNG"
    case ImageGif => "IMAGE_GIF"
    case ImageSvgXml => "IMAGE_SVG_XML"
    case ImageBmp => "IMAGE_BMP"
    case ImageWebp => "IMAGE_WEBP"
    case AudioMpeg => "AUDIO_MPEG"
    case AudioOgg => "AUDIO_OGG"
    case AudioWav => "AUDIO_WAV"
    case AudioWebm => "AUDIO_WEBM"
    case AudioAac => "AUDIO_AAC"
    case VideoMp4 => "VIDEO_MP4"
    case VideoMpeg => "VIDEO_MPEG"
    case VideoOgg => "VIDEO_OGG"
    case VideoWebm => "VIDEO_WEBM"
    case VideoXMsvideo => "VIDEO_X_MSVIDEO"
    case MultipartFormData => "MULTIPART_FORM_DATA"
    case MultipartByteranges => "MULTIPART_BYTERANGES"
    case MultipartAlternative => "MULTIPART_ALTERNATIVE"
    case MultipartMixed => "MULTIPART_MIXED"
    case MultipartRelated => "MULTIPART_RELATED"
    case MessageHttp => "MESSAGE_HTTP"
    case MessageImdnXml => "MESSAGE_IMDN_XML"
    case MessagePartial => "MESSAGE_PARTIAL"
    case MessageRfc822 => "MESSAGE_RFC822"
    case FontWoff => "FONT_WOFF"
    case FontWoff2 => "FONT_WOFF2"
    case FontTtf => "FONT_TTF"
    case FontOtf => "FONT_OTF"
  }

  /** `ordinal()`: the position of the constant in its declaration. */
  function Ordinal(m: MimeType): nat {
    match m
    case Any => 0
    case TextPlain => 1
    case TextHtml => 2
    case TextCss => 3
    case TextJavascript => 4
    case TextXml => 5
    case ApplicationJson => 6
    case ApplicationXml => 7
    case ApplicationJavascript => 8
    case ApplicationPdf => 9
    case ApplicationZip => 10
    case ApplicationOctetStream => 11
    case ApplicationXWwwFormUrlencoded => 12
    case ImageJpeg => 13
    case ImagePng => 14
    case ImageGif => 15
    case ImageSvgXml => 16
    case ImageBmp => 17
    case ImageWebp => 18
    case AudioMpeg => 19
    case AudioOgg => 20
    case AudioWav => 21
    case AudioWebm => 22
    case AudioAac => 23
    case VideoMp4 => 24
    case VideoMpeg => 25
    case VideoOgg => 26
    case VideoWebm => 27
    case VideoXMsvideo => 28
    case MultipartFormData => 29
    case MultipartByteranges => 30
    case MultipartAlternative => 31
    case MultipartMixed => 32
    case MultipartRelated => 33
    case MessageHttp => 34
    case MessageImdnXml => 35
    case MessagePartial => 36
    case MessageRfc822 => 37
    case FontWoff => 38
    case FontWoff2 => 39
    case FontTtf => 40
    case FontOtf => 41
  }

  /** The constant with a given ordinal. */
  function FromOrdinal(i: nat): MimeType
    requires i < 42
  {
    match i
    case 0 => Any
    case 1 => TextPlain
    case 2 => TextHtml
    case 3 => TextCss
    case 4 => TextJavascript
    case 5 => TextXml
    case 6 => ApplicationJson
    case 7 => ApplicationXml
    case 8 => ApplicationJavascript
    case 9 => ApplicationPdf
    case 10 => ApplicationZip
    case 11 => ApplicationOctetStream
    case 12 => ApplicationXWwwFormUrlencoded
    case 13 => ImageJpeg
    case 14 => ImagePng
    case 15 => ImageGif
    case 16 => ImageSvgXml
    case 17 => ImageBmp
    case 18 => ImageWebp
    case 19 => AudioMpeg
    case 20 => AudioOgg
    case 21 => AudioWav
    case 22 => AudioWebm
    case 23 => AudioAac
    case 24 => VideoMp4
    case 25 => VideoMpeg
    case 26 => VideoOgg
    case 27 => VideoWebm
    case 28 => VideoXMsvideo
    case 29 => MultipartFormData
    case 30 => MultipartByteranges
    case 31 => MultipartAlternative
    case 32 => MultipartMixed
    case 33 => MultipartRelated
    case 34 => MessageHttp
    case 35 => MessageImdnXml
    case 36 => MessagePartial
    case 37 => MessageRfc822
    case 38 => FontWoff
    case 39 => FontWoff2
    case 40 => FontTtf
    case 41 => FontOtf
    case _ => FontOtf
  }

  /** `MIMETypes.values()`: the constants in declaration order. */
  const Values: seq<MimeType> := seq(42, i requires 0 <= i < 42 => FromOrdinal(i))

  /** Ordinals number the constants 0 to 41 ... */
  lemma FromOrdinalOrdinal(m: MimeType)
    ensures Ordinal(m) < 42 && FromOrdinal(Ordinal(m)) == m
  {
    if Ordinal(m) < 21 {
      FromOrdinalOrdinalLow(m);
    } else {
      FromOrdinalOrdinalHigh(m);
    }
  }

  lemma FromOrdinalOrdinalLow(m: MimeType)
    requires Ordinal(m) < 21
    ensures FromOrdinal(Ordinal(m)) == m
  {
  }

  lemma FromOrdinalOrdinalHigh(m: MimeType)
    requires 21 <= Ordinal(m)
    ensures Ordinal(m) < 42 && FromOrdinal(Ordinal(m)) == m
  {
  }

  /** ... without gaps or repeats. */
  lemma OrdinalFromOrdinal(i: nat)
    requires i < 42
    ensures Ordinal(FromOrdinal(i)) == i
  {
  }

  /** `values()` lists all 42 constants, each once, each at its ordinal. */
  lemma ValuesEnumerateAll()
    ensures |Values| == 42
    ensures forall m :: m in Values && Values[Ordinal(m)] == m
    ensures forall i, j :: 0 <= i < j < |Values| ==> Values[i] != Values[j]
  {
    forall m: MimeType ensures m in Values && Values[Ordinal(m)] == m {
      FromOrdinalOrdinal(m);
      assert Values[Ordinal(m)] == m;
    }
    forall i, j | 0 <= i < j < |Values| ensures Values[i] != Values[j] {
      OrdinalFromOrdinal(i);
      OrdinalFromOrdinal(j);
    }
  }

  /** In `x + "/" + y` with `x` slash-free, the first slash is the one after `x`. */
  lemma FirstSlash(x: string, y: string)
    requires '/' !in x
    ensures (x + "/" + y)[|x|] == '/'
    ensures forall i :: 0 <= i < |x| ==> (x + "/" + y)[i] != '/'
  {
    forall i | 0 <= i < |x| ensures (x + "/" + y)[i] != '/' {
      assert (x + "/" + y)[i] == x[i];
    }
  }

  /** A wire string splits at its slash into top-level type and subtype. */
  lemma SplitAtSlash(x: string, y: string, u: string, v: string)
    requires '/' !in x && '/' !in u
    requires x + "/" + y == u + "/" + v
    ensures x == u && y == v
  {
    var s := x + "/" + y;
    FirstSlash(x, y);
    FirstSlash(u, v);
    assert |x| == |u|;
    assert x == s[..|x|] == u;
    assert y == s[|x| + 1..] == v;
  }

  /** Type and subtype together identify a constant; the check is split by
      ordinal into sixths to keep each part small. */
  lemma PartsInjective(a: MimeType, b: MimeType)
    requires MediaType(a) == MediaType(b) && Subtype(a) == Subtype(b)
    ensures a == b
  {
    var i := Ordinal(a);
    if i < 7 {
      PartsInjectiveIn0(a, b);
    } else if i < 14 {
      PartsInjectiveIn1(a, b);
    } else if i < 21 {
      PartsInjectiveIn2(a, b);
    } else if i < 28 {
      PartsInjectiveIn3(a, b);
    } else if i < 35 {
      PartsInjectiveIn4(a, b);
    } else {
      PartsInjectiveIn5(a, b);
    }
  }

  lemma PartsInjectiveIn0(a: MimeType, b: MimeType)
    requires Ordinal(a) < 7
    requires MediaType(a) == MediaType(b) && Subtype(a) == Subtype(b)
    ensures a == b
  {
  }

  lemma PartsInjectiveIn1(a: MimeType, b: MimeType)
    requires 7 <= Ordinal(a) < 14
    requires MediaType(a) == MediaType(b) && Subtype(a) == Subtype(b)
    ensures a == b
  {
  }

  lemma PartsInjectiveIn2(a: MimeType, b: MimeType)
    requires 14 <= Ordinal(a) < 21
    requires MediaType(a) == MediaType(b) && Subtype(a) == Subtype(b)
    ensures a == b
  {
  }

  lemma PartsInjectiveIn3(a: MimeType, b: MimeType)
    requires 21 <= Ordinal(a) < 28
    requires MediaType(a) == MediaType(b) && Subtype(a) == Subtype(b)
    ensures a == b
  {
  }

  lemma PartsInjectiveIn4(a: MimeType, b: MimeType)
    requires 28 <= Ordinal(a) < 35
    requires MediaType(a) == MediaType(b) && Subtype(a) == Subtype(b)
    ensures a == b
  {
  }

  lemma PartsInjectiveIn5(a: MimeType, b: MimeType)
    requires 35 <= Ordinal(a)
    requires MediaType(a) == MediaType(b) && Subtype(a) == Subtype(b)
    ensures a == b
  {
  }

  /** No two constants share a wire string. */
  lemma WireInjective(a: MimeType, b: MimeType)
    requires Wire(a) == Wire(b)
    ensures a == b
  {
    MediaTypeIsToken(a);
    MediaTypeIsToken(b);
    SplitAtSlash(MediaType(a), Subtype(a), MediaType(b), Subtype(b));
    PartsInjective(a, b);
  }

  /** The top-level type is non-empty and slash-free. */
  lemma MediaTypeIsToken(m: MimeType)
    ensures MediaType(m) != [] && '/' !in MediaType(m)
  {
  }

  /** The subtype is non-empty and slash-free; the check is split by ordinal
      into sixths to keep each part small. */
  lemma SubtypeIsToken(m: MimeType)
    ensures Subtype(m) != [] && '/' !in Subtype(m)
  {
    var i := Ordinal(m);
    if i < 7 {
      SubtypeIsTokenIn0(m);
    } else if i < 14 {
      SubtypeIsTokenIn1(m);
    } else if i < 21 {
      SubtypeIsTokenIn2(m);
    } else if i < 28 {
      SubtypeIsTokenIn3(m);
    } else if i < 35 {
      SubtypeIsTokenIn4(m);
    } else {
      SubtypeIsTokenIn5(m);
    }
  }

  lemma SubtypeIsTokenIn0(m: MimeType)
    requires Ordinal(m) < 7
    ensures Subtype(m) != [] && '/' !in Subtype(m)
  {
  }

  lemma SubtypeIsTokenIn1(m: MimeType)
    requires 7 <= Ordinal(m) < 14
    ensures Subtype(m) != [] && '/' !in Subtype(m)
  {
  }

  lemma SubtypeIsTokenIn2(m: MimeType)
    requires 14 <= Ordinal(m) < 21
    ensures Subtype(m) != [] && '/' !in Subtype(m)
  {
  }

  lemma SubtypeIsTokenIn3(m: MimeType)
    requires 21 <= Ordinal(m) < 28
    ensures Subtype(m) != [] && '/' !in Subtype(m)
  {
  }

  lemma SubtypeIsTokenIn4(m: MimeType)
    requires 28 <= Ordinal(m) < 35
    ensures Subtype(m) != [] && '/' !in Subtype(m)
  {
  }

  lemma SubtypeIsTokenIn5(m: MimeType)
    requires 35 <= Ordinal(m)
    ensures Subtype(m) != [] && '/' !in Subtype(m)
  {
  }

  /** Every wire string holds exactly one slash, right after the top-level
      type. */
  lemma WireHasOneSlash(m: MimeType)
    ensures Wire(m)[|MediaType(m)|] == '/'
    ensures forall i :: 0 <= i < |Wire(m)| && Wire(m)[i] == '/' ==> i == |MediaType(m)|
  {
    var x, y := MediaType(m), Subtype(m);
    MediaTypeIsToken(m);
    SubtypeIsToken(m);
    forall i | 0 <= i < |Wire(m)| && i != |x|
      ensures Wire(m)[i] != '/'
    {
      if i < |x| {
        assert Wire(m)[i] == x[i];
      } else {
        assert Wire(m)[i] == y[i - |x| - 1];
      }
    }
  }

  /** Two constants the library's users rely on. */
  lemma WellKnownWires()
    ensures Wire(Any) == "*/*"
    ensures Wire(ApplicationJson) == "application/json"
    ensures Wire(TextHtml) == "text/html"
  {
  }
}
