/**
  The key-handling rules of the image service: case-insensitive suffix tests
  that decide which stored objects a batch converts and which converter an
  object goes to, and the derivation of the key the WebP result is written to.
 */
module Keys {
  import opened Results

  /** Lower-casing of one character, as `String.toLowerCase` does for ASCII letters. */
  function LowerChar(c: char): char
  {
    if 'A' <= c <= 'Z' then (c as int + 32) as char else c
  }

  /** `key.toLowerCase()`: every character lower-cased, the length unchanged. */
  function LowerKey(s: string): (r: string)
    ensures |r| == |s|
    ensures forall i :: 0 <= i < |s| ==> r[i] == LowerChar(s[i])
  {
    seq(|s|, i requires 0 <= i < |s| => LowerChar(s[i]))
  }

  /** `s.endsWith(suffix)`. */
  predicate EndsWith(s: string, suffix: string)
  {
    |suffix| <= |s| && s[|s| - |suffix|..] == suffix
  }

  /** The suffix test of the batch filter, on an already lower-cased key. */
  predicate HasSupportedSuffix(lowerKey: string)
  {
    EndsWith(lowerKey, ".png") || EndsWith(lowerKey, ".jpg")
      || EndsWith(lowerKey, ".jpeg") || EndsWith(lowerKey, ".pdf")
  }

  /**
    The batch filter: the lower-cased key ends in `.png`, `.jpg`, `.jpeg` or
    `.pdf`. It admits exactly the keys whose extension is, in any case, one of
    `png`, `jpg`, `jpeg`, `pdf`.
   */
  function Eligible(key: string): (r: bool)
    ensures r <==> Classify(key).Some?
  {
    if HasSupportedSuffix(LowerKey(key)) then
      SuffixTestHasExtension(key);
      true
    else
      if Classify(key).Some? then
        ExtensionPassesSuffixTest(key);
        false
      else
        false
  }

  /** The two conversion paths of the service. */
  datatype SourceKind = RasterImage | PdfDocument

  /**
    Converter dispatch: the PDF path for a lower-cased `.pdf` suffix, the
    raster path otherwise. For every key, eligible or not, the PDF path is
    chosen exactly when the key's extension is `pdf` in some case.
   */
  function ConverterFor(key: string): (r: SourceKind)
    ensures r == PdfDocument <==> Classify(key) == Some(PdfDocument)
  {
    if EndsWith(LowerKey(key), ".pdf") then
      SuffixGivesExtension(key, "pdf");
      PdfDocument
    else
      PdfExtensionGivesSuffix(key);
      RasterImage
  }

  /** `s.lastIndexOf(c)`: the index of the last `c` in `s`, or -1 when there is none. */
  function LastIndexOf(s: string, c: char): (r: int)
    ensures -1 <= r < |s|
    ensures 0 <= r ==> s[r] == c
    ensures forall j :: r < j < |s| ==> s[j] != c
  {
    if s == [] then -1
    else if s[|s| - 1] == c then |s| - 1
    else
      var r := LastIndexOf(s[..|s| - 1], c);
      assert forall j :: r < j < |s| - 1 ==> s[j] == s[..|s| - 1][j];
      r
  }

  /** `s.substring(begin, end)`: `None` where Java throws `StringIndexOutOfBoundsException`. */
  function Substring(s: string, begin: int, end: int): (r: Option<string>)
    ensures r.Some? <==> 0 <= begin <= end <= |s|
    ensures r.Some? ==> |r.value| == end - begin
    ensures r.Some? ==> forall i :: 0 <= i < end - begin ==> r.value[i] == s[begin + i]
  {
    if 0 <= begin <= end <= |s| then Some(s[begin..end]) else None
  }

  const WebpPrefix := "webp/"
  const WebpSuffix := ".webp"

  /**
    The destination of a converted object: `"webp/" + key.substring(0, key.lastIndexOf('.')) + ".webp"`.
    `None` stands for the exception Java raises when the key has no `.`.
   */
  function DestKey(key: string): (r: Option<string>)
    ensures r.Some? <==> '.' in key
    // the stem is the key with its extension and the `.` before it removed
    ensures r.Some? ==>
      (Extension(key).Some? && r.value == WebpPrefix + key[..|key| - |Extension(key).value| - 1] + WebpSuffix)
  {
    LastIndexOfFinds(key, '.');
    match Substring(key, 0, LastIndexOf(key, '.'))
    case None => None
    case Some(keyWithoutExtension) => Some(WebpPrefix + keyWithoutExtension + WebpSuffix)
  }

  /*
   * A reference classification, written independently of the suffix tests:
   * take the text after the last `.` and compare it, lower-cased, with the
   * supported extensions.
   */

  /** The text after the last `.` of the key, if the key has a `.`. */
  function Extension(key: string): Option<string>
  {
    var dot := LastIndexOf(key, '.');
    if dot < 0 then None else Some(key[dot + 1..])
  }

  /** What kind of source an object is, judged by its extension; `None` for an unsupported one. */
  function Classify(key: string): Option<SourceKind>
  {
    match Extension(key)
    case None => None
    case Some(ext) =>
      var e := LowerKey(ext);
      if e == "pdf" then Some(PdfDocument)
      else if e == "png" || e == "jpg" || e == "jpeg" then Some(RasterImage)
      else None
  }

  // ----- lower-casing -----

  lemma LowerCharIsDot(c: char)
    ensures LowerChar(c) == '.' <==> c == '.'
  {
  }

  /** Lower-casing a slice is slicing the lower-cased string. */
  lemma LowerKeySlice(s: string, i: nat)
    requires i <= |s|
    ensures LowerKey(s[i..]) == LowerKey(s)[i..]
  {
    assert forall j :: 0 <= j < |s| - i ==> LowerKey(s[i..])[j] == LowerKey(s)[i..][j];
  }

  /** Lower-casing twice is lower-casing once. */
  lemma LowerKeyIdempotent(s: string)
    ensures LowerKey(LowerKey(s)) == LowerKey(s)
  {
    assert forall i :: 0 <= i < |s| ==> LowerKey(LowerKey(s))[i] == LowerKey(s)[i];
  }

  // ----- lastIndexOf -----

  /** A `c` with no `c` after it is the last one. */
  lemma LastIndexOfAt(s: string, c: char, i: nat)
    requires i < |s| && s[i] == c && c !in s[i + 1..]
    ensures LastIndexOf(s, c) == i
  {
  }

  /** `lastIndexOf` finds an occurrence exactly when there is one. */
  lemma LastIndexOfFinds(s: string, c: char)
    ensures LastIndexOf(s, c) >= 0 <==> c in s
  {
    if c in s {
      var j :| 0 <= j < |s| && s[j] == c;
      assert LastIndexOf(s, c) >= j;
    }
  }

  // ----- extensions and suffixes -----

  /**
    When the lower-cased key ends in `.` followed by a dot-free `ext`, the key's
    extension is the original-case text that lower-cases to `ext`.
   */
  lemma SuffixGivesExtension(key: string, ext: string)
    requires '.' !in ext
    requires EndsWith(LowerKey(key), "." + ext)
    ensures Extension(key).Some? && LowerKey(Extension(key).value) == ext
  {
    var dot := |key| - |ext| - 1;
    LastDotBeforeSuffix(key, ext);
    LastIndexOfAt(key, '.', dot);
    LowerKeySlice(key, dot + 1);
    var lowerKey := LowerKey(key);
    assert lowerKey[dot..] == "." + ext;
    assert lowerKey[dot + 1..] == lowerKey[dot..][1..];
  }

  /** In a key whose lower-cased form ends in `.` and a dot-free `ext`, that `.` is the last one. */
  lemma LastDotBeforeSuffix(key: string, ext: string)
    requires '.' !in ext
    requires EndsWith(LowerKey(key), "." + ext)
    ensures key[|key| - |ext| - 1] == '.' && '.' !in key[|key| - |ext|..]
  {
    var lowerKey := LowerKey(key);
    var dot := |key| - |ext| - 1;
    assert lowerKey[dot..] == "." + ext;
    assert key[dot] == '.' by {
      assert lowerKey[dot] == lowerKey[dot..][0];
      LowerCharIsDot(key[dot]);
    }
    forall j | dot + 1 <= j < |key|
      ensures key[j] != '.'
    {
      assert lowerKey[j] == lowerKey[dot..][j - dot] == ext[j - dot - 1];
      LowerCharIsDot(key[j]);
    }
  }

  /** Conversely, a key with an extension ends, lower-cased, in `.` and that extension lower-cased. */
  lemma ExtensionGivesSuffix(key: string)
    requires Extension(key).Some?
    ensures EndsWith(LowerKey(key), "." + LowerKey(Extension(key).value))
  {
    var dot := LastIndexOf(key, '.');
    assert 0 <= dot && Extension(key).value == key[dot + 1..];
    var lowerKey := LowerKey(key);
    var lowerExt := LowerKey(key[dot + 1..]);
    LowerKeySlice(key, dot + 1);
    assert lowerKey[dot] == LowerChar(key[dot]) == '.';
    forall i | 0 <= i < |key| - dot
      ensures lowerKey[dot..][i] == ("." + lowerExt)[i]
    {
      if i > 0 {
        assert lowerKey[dot..][i] == lowerKey[dot + 1..][i - 1];
      }
    }
  }

  /** A key whose extension is `pdf`, in any case, ends in `.pdf` once lower-cased. */
  lemma PdfExtensionGivesSuffix(key: string)
    ensures Classify(key) == Some(PdfDocument) ==> EndsWith(LowerKey(key), ".pdf")
  {
    if Classify(key) == Some(PdfDocument) {
      ExtensionGivesSuffix(key);
      assert "." + LowerKey(Extension(key).value) == ".pdf";
    }
  }

  // ----- the batch filter and the dispatch -----

  /** A key that passes the suffix test has a supported extension. */
  lemma SuffixTestHasExtension(key: string)
    requires HasSupportedSuffix(LowerKey(key))
    ensures Classify(key).Some?
  {
    var ext := SupportedSuffixExtension(LowerKey(key));
    SuffixGivesExtension(key, ext);
  }

  /** The extension named by the suffix a lower-cased key passes the filter with. */
  lemma SupportedSuffixExtension(lowerKey: string) returns (ext: string)
    requires HasSupportedSuffix(lowerKey)
    ensures ext == "png" || ext == "jpg" || ext == "jpeg" || ext == "pdf"
    ensures '.' !in ext && EndsWith(lowerKey, "." + ext)
  {
    if EndsWith(lowerKey, ".png") {
      ext := "png";
      assert "." + ext == ".png";
    } else if EndsWith(lowerKey, ".jpg") {
      ext := "jpg";
      assert "." + ext == ".jpg";
    } else if EndsWith(lowerKey, ".jpeg") {
      ext := "jpeg";
      assert "." + ext == ".jpeg";
    } else {
      ext := "pdf";
      assert "." + ext == ".pdf";
    }
  }

  /** A key with a supported extension, in any case, passes the suffix test. */
  lemma ExtensionPassesSuffixTest(key: string)
    requires Classify(key).Some?
    ensures HasSupportedSuffix(LowerKey(key))
  {
    ExtensionGivesSuffix(key);
    SupportedExtensionHasSuffix(LowerKey(key), LowerKey(Extension(key).value));
  }

  /** A lower-cased key ending in `.` and a supported extension passes the suffix test. */
  lemma SupportedExtensionHasSuffix(lowerKey: string, ext: string)
    requires ext == "png" || ext == "jpg" || ext == "jpeg" || ext == "pdf"
    requires EndsWith(lowerKey, "." + ext)
    ensures HasSupportedSuffix(lowerKey)
  {
    if ext == "png" {
      assert "." + ext == ".png";
    } else if ext == "jpg" {
      assert "." + ext == ".jpg";
    } else if ext == "jpeg" {
      assert "." + ext == ".jpeg";
    } else {
      assert "." + ext == ".pdf";
    }
  }

  /** The filter ignores case: `photo.PNG` and `photo.png` are treated alike. */
  lemma EligibleIgnoresCase(key: string)
    ensures Eligible(key) == Eligible(LowerKey(key))
    ensures ConverterFor(key) == ConverterFor(LowerKey(key))
  {
    LowerKeyIdempotent(key);
  }

  // ----- the destination key -----

  /**
    Splitting a key at its last `.` into a stem and a dot-free extension, the
    destination is `webp/` + stem + `.webp`.
   */
  lemma DestKeyOfSplit(stem: string, ext: string)
    requires '.' !in ext
    ensures DestKey(stem + "." + ext) == Some(WebpPrefix + stem + WebpSuffix)
  {
    var key := stem + "." + ext;
    assert key[|stem|] == '.';
    assert key[|stem| + 1..] == ext;
    LastIndexOfAt(key, '.', |stem|);
    assert key[..|stem|] == stem;
  }

  /** Every batch-eligible key has a `.`, so its destination is always defined. */
  lemma EligibleHasDestination(key: string)
    requires Eligible(key)
    ensures DestKey(key).Some?
  {
  }

  /** `a/b/photo.PNG` is written to `webp/a/b/photo.webp`. */
  lemma DestKeyExample()
    ensures DestKey("a/b/photo.PNG") == Some("webp/a/b/photo.webp")
  {
    assert "a/b/photo" + "." + "PNG" == "a/b/photo.PNG";
    assert WebpPrefix + "a/b/photo" + WebpSuffix == "webp/a/b/photo.webp";
    DestKeyOfSplit("a/b/photo", "PNG");
  }

  /**
    The last `.` is looked for in the whole key, directories included: a key
    without an extension under a dotted directory loses its file name.
   */
  lemma DestKeyDottedDirectory()
    ensures DestKey("a.b/photo") == Some("webp/a.webp")
  {
    assert "a" + "." + "b/photo" == "a.b/photo";
    assert WebpPrefix + "a" + WebpSuffix == "webp/a.webp";
    DestKeyOfSplit("a", "b/photo");
  }

  /**
    A destination key ends in `.webp`, so it is never eligible itself: the
    output of one batch is never converted again by a later one.
   */
  lemma DestinationNotEligible(key: string)
    requires DestKey(key).Some?
    ensures !Eligible(DestKey(key).value)
  {
    var stem := key[..LastIndexOf(key, '.')];
    var dest := WebpPrefix + stem + WebpSuffix;
    assert dest == (WebpPrefix + stem) + "." + "webp";
    DestKeyOfSplit(WebpPrefix + stem, "webp");
    var dot := |dest| - 5;
    assert dest[dot] == '.' && dest[dot + 1..] == "webp";
    LastIndexOfAt(dest, '.', dot);
    assert LowerKey("webp") == "webp";
  }
}
