/**
 * The string rules that decide which uploaded file names are accepted
 * (`allowed_file`), which extension selects the extractor (line 97 of app.py)
 * and what the base name of the output document is (`os.path.splitext`).
 */
module FileNames {
  import opened Wrappers

  /** The lower-case extensions the application accepts. */
  const ALLOWED_EXTENSIONS: set<string> := {"pdf", "docx", "txt", "jpg", "jpeg", "png"}

  /** The separators `os.path` knows on the Windows host the application targets. */
  const PATH_SEPARATORS: set<char> := {'\\', '/'}

  /** `str.lower()` restricted to ASCII. */
  function LowerChar(c: char): (d: char)
    ensures 'A' <= c <= 'Z' ==> 'a' <= d <= 'z' && d as int - c as int == 32
    ensures !('A' <= c <= 'Z') ==> d == c
  {
    if 'A' <= c <= 'Z' then (c as int + 32) as char else c
  }

  function Lower(s: string): (r: string)
    ensures |r| == |s|
    ensures forall i :: 0 <= i < |s| ==> r[i] == LowerChar(s[i])
  {
    if s == [] then [] else [LowerChar(s[0])] + Lower(s[1..])
  }

  /** `s.rfind(c)` for any `c` in `cs`: the last position holding one of them, or -1. */
  function LastIndexIn(s: string, cs: set<char>): (r: int)
    ensures -1 <= r < |s|
    ensures 0 <= r ==> s[r] in cs
    ensures forall j :: r < j < |s| ==> s[j] !in cs
  {
    if s == [] then -1
    else if s[|s| - 1] in cs then |s| - 1
    else LastIndexIn(s[..|s| - 1], cs)
  }

  /** `s.rsplit('.', 1)`: the whole name when it has no dot, else the parts before and after its last dot. */
  function RSplitLastDot(s: string): (parts: seq<string>)
    ensures 1 <= |parts| <= 2
    ensures |parts| == 1 <==> '.' !in s
    ensures |parts| == 1 ==> parts[0] == s
    ensures |parts| == 2 ==> parts[0] + "." + parts[1] == s && '.' !in parts[1]
  {
    var i := LastIndexIn(s, {'.'});
    if i < 0 then
      assert forall j :: 0 <= j < |s| ==> s[j] != '.';
      [s]
    else
      assert s == s[..i] + "." + s[i + 1..];
      [s[..i], s[i + 1..]]
  }

  /**
   * Line 97, `filename.rsplit('.', 1)[1].lower()`. `None` stands for the
   * IndexError that indexing raises when the name has no dot.
   */
  function Extension(filename: string): (ext: Option<string>)
    ensures ext.None? <==> '.' !in filename
    ensures ext.Some? ==>
      |ext.value| < |filename| && filename[|filename| - |ext.value| - 1] == '.' &&
      '.' !in filename[|filename| - |ext.value|..] &&
      ext.value == Lower(filename[|filename| - |ext.value|..])
  {
    var parts := RSplitLastDot(filename);
    if |parts| == 1 then None
    else
      assert filename[|parts[0]| + 1..] == parts[1] by {
        assert filename == parts[0] + "." + parts[1];
      }
      Some(Lower(parts[1]))
  }

  /** `allowed_file`: the name has a dot and its lowered last extension is one of the six. */
  function AllowedFile(filename: string): (ok: bool)
    ensures ok <==> Extension(filename).Some? && Extension(filename).value in ALLOWED_EXTENSIONS
  {
    '.' in filename && Lower(RSplitLastDot(filename)[1]) in ALLOWED_EXTENSIONS
  }

  /** Whether position `i` of `s` holds its last dot. */
  predicate IsLastDot(s: string, i: int) {
    0 <= i < |s| && s[i] == '.' && forall j :: i < j < |s| ==> s[j] != '.'
  }

  lemma LastDotIsLastIndex(s: string, i: int)
    requires IsLastDot(s, i)
    ensures LastIndexIn(s, {'.'}) == i
  {
    assert s[i] in {'.'};
  }

  /** Whether a name is accepted depends only on the text after its last dot. */
  lemma AllowedAtLastDot(filename: string, i: int)
    requires IsLastDot(filename, i)
    ensures AllowedFile(filename) <==> Lower(filename[i + 1..]) in ALLOWED_EXTENSIONS
  {
    LastDotIsLastIndex(filename, i);
    assert '.' in filename;
    assert RSplitLastDot(filename)[1] == filename[i + 1..];
  }

  /** An accepted name is exactly one whose text after its last dot lowers to an allowed extension. */
  lemma AllowedFileIff(filename: string)
    ensures AllowedFile(filename) <==>
      exists i :: IsLastDot(filename, i) && Lower(filename[i + 1..]) in ALLOWED_EXTENSIONS
  {
    var r := LastIndexIn(filename, {'.'});
    if r >= 0 {
      assert IsLastDot(filename, r);
      AllowedAtLastDot(filename, r);
    }
    if exists i :: IsLastDot(filename, i) && Lower(filename[i + 1..]) in ALLOWED_EXTENSIONS {
      var i :| IsLastDot(filename, i) && Lower(filename[i + 1..]) in ALLOWED_EXTENSIONS;
      AllowedAtLastDot(filename, i);
    }
  }

  /** Lowering the whole name keeps every dot where it was and changes nothing else a dot test sees. */
  lemma LowerKeepsDots(s: string)
    ensures forall i :: 0 <= i < |s| ==> (Lower(s)[i] == '.' <==> s[i] == '.')
    ensures forall i :: 0 <= i < |s| ==> (Lower(s)[i] in PATH_SEPARATORS <==> s[i] in PATH_SEPARATORS)
  {
  }

  /** Two strings with dots at the same positions have their last dot at the same position. */
  lemma LastDotAgrees(s: string, t: string)
    requires |s| == |t|
    requires forall i :: 0 <= i < |s| ==> (s[i] == '.' <==> t[i] == '.')
    ensures LastIndexIn(s, {'.'}) == LastIndexIn(t, {'.'})
  {
    assert forall i :: 0 <= i < |s| ==> (s[i] in {'.'} <==> t[i] in {'.'});
  }

  lemma LowerIdempotent(s: string)
    ensures Lower(Lower(s)) == Lower(s)
  {
  }

  lemma LowerSlice(s: string, i: nat)
    requires i <= |s|
    ensures Lower(s)[i..] == Lower(s[i..])
  {
  }

  /**
   * Validation and the extension of line 97 ignore case: "IMAGE.PNG" and
   * "image.png" are judged and routed alike.
   */
  lemma ExtensionIgnoresCase(filename: string)
    ensures Extension(Lower(filename)) == Extension(filename)
    ensures AllowedFile(Lower(filename)) == AllowedFile(filename)
  {
    var low := Lower(filename);
    LowerKeepsDots(filename);
    LastDotAgrees(low, filename);
    var i := LastIndexIn(filename, {'.'});
    if i >= 0 {
      assert low[i] == '.';
      assert '.' in low && '.' in filename;
      var p, q := RSplitLastDot(low), RSplitLastDot(filename);
      assert p[1] == low[i + 1..];
      assert q[1] == filename[i + 1..];
      LowerSlice(filename, i + 1);
      LowerIdempotent(filename[i + 1..]);
    } else {
      assert '.' !in filename;
      assert '.' !in low by {
        forall j | 0 <= j < |low| ensures low[j] != '.' {
          assert filename[j] != '.';
        }
      }
    }
  }

  /** The last dot of `stem.ext` is the one before `ext` when `ext` has none. */
  lemma RSplitOfStemAndExtension(stem: string, ext: string)
    requires '.' !in ext
    ensures RSplitLastDot(stem + "." + ext) == [stem, ext]
    ensures Extension(stem + "." + ext) == Some(Lower(ext))
  {
    var p := stem + "." + ext;
    assert p[|stem|] in {'.'};
    assert forall j :: |stem| < j < |p| ==> p[j] == ext[j - |stem| - 1];
    assert LastIndexIn(p, {'.'}) == |stem|;
    assert p[..|stem|] == stem && p[|stem| + 1..] == ext;
  }

  /** A name `stem.ext` with a dot-free `ext` is accepted exactly when `ext` lowers to an allowed extension. */
  lemma AllowedStemAndExtension(stem: string, ext: string)
    requires '.' !in ext
    ensures AllowedFile(stem + "." + ext) <==> Lower(ext) in ALLOWED_EXTENSIONS
  {
    RSplitOfStemAndExtension(stem, ext);
  }

  /** Upper- and lower-case spellings of an allowed extension are both accepted, whatever the stem. */
  lemma CaseOfExtensionIgnored(stem: string)
    ensures AllowedFile(stem + "." + "PNG") && AllowedFile(stem + "." + "png")
  {
    assert Lower("PNG") == "png";
    AllowedStemAndExtension(stem, "PNG");
    AllowedStemAndExtension(stem, "png");
  }

  /** Only the text after the last dot counts: a name like "scan.v2.Pdf" is accepted. */
  lemma LastExtensionCounts(stem: string)
    ensures AllowedFile(stem + ".v2" + "." + "Pdf")
  {
    assert Lower("Pdf") == "pdf";
    AllowedStemAndExtension(stem + ".v2", "Pdf");
  }

  /** A name without a dot is rejected. */
  lemma NoDotRejected()
    ensures !AllowedFile("image")
  {
    assert forall j :: 0 <= j < 5 ==> "image"[j] != '.';
  }

  /** A name ending in a dot has an empty extension, which is rejected. */
  lemma TrailingDotRejected(stem: string)
    ensures !AllowedFile(stem + "." + "")
  {
    AllowedStemAndExtension(stem, "");
  }

  /** An allowed extension followed by another one is rejected: "notes.txt.exe" is. */
  lemma OtherLastExtensionRejected(stem: string)
    ensures !AllowedFile(stem + ".txt" + "." + "exe")
  {
    assert Lower("exe") == "exe";
    AllowedStemAndExtension(stem + ".txt", "exe");
  }

  /** Whether the part of `p` strictly between `lo` and `hi` holds a character other than a dot. */
  predicate HasNonDotBetween(p: string, lo: int, hi: int)
    requires -1 <= lo && hi <= |p|
  {
    exists k :: lo < k < hi && p[k] != '.'
  }

  /**
   * `os.path.splitext(p)`: the root and the extension. The extension starts
   * at the last dot of the last path component, unless every character
   * before that dot in the component is a dot too (".bashrc" has none).
   */
  function SplitExt(p: string): (r: (string, string))
    ensures r.0 + r.1 == p
    ensures r.1 != [] ==>
      r.1[0] == '.' &&
      (forall j :: 0 < j < |r.1| ==> r.1[j] != '.' && r.1[j] !in PATH_SEPARATORS) &&
      exists k :: 0 <= k < |r.0| && r.0[k] != '.' &&
        forall j :: k <= j < |r.0| ==> r.0[j] !in PATH_SEPARATORS
  {
    var sep := LastIndexIn(p, PATH_SEPARATORS);
    var dot := LastIndexIn(p, {'.'});
    if dot > sep && HasNonDotBetween(p, sep, dot) then
      SplitAtDotShape(p, sep, dot);
      (p[..dot], p[dot..])
    else
      (p, [])
  }

  /** The two halves `SplitExt` cuts at the last dot have the shape its contract states. */
  lemma SplitAtDotShape(p: string, sep: int, dot: int)
    requires -1 <= sep < dot < |p| && p[dot] == '.'
    requires forall j :: sep < j < |p| ==> p[j] !in PATH_SEPARATORS
    requires forall j :: dot < j < |p| ==> p[j] != '.'
    requires HasNonDotBetween(p, sep, dot)
    ensures p[..dot] + p[dot..] == p
    ensures p[dot..][0] == '.'
    ensures forall j :: 0 < j < |p| - dot ==> p[dot..][j] != '.' && p[dot..][j] !in PATH_SEPARATORS
    ensures exists k :: 0 <= k < dot && p[..dot][k] != '.' && (forall j :: k <= j < dot ==> p[..dot][j] !in PATH_SEPARATORS)
  {
    var k :| sep < k < dot && p[k] != '.';
    assert p[..dot][k] != '.';
    assert forall j :: k <= j < dot ==> p[..dot][j] == p[j];
    assert forall j :: 0 < j < |p| - dot ==> p[dot..][j] == p[dot + j];
  }

  /** `os.path.splitext(p)[0]`, the base name of the output document. */
  function Stem(p: string): (root: string)
    ensures |root| <= |p| && root == p[..|root|]
    ensures root != p ==> p[|root|] == '.'
  {
    SplitExt(p).0
  }

  /**
   * Position `i` starts the extension `splitext` finds: it holds the last
   * dot, no separator follows it, and somewhere before it in the same path
   * component there is a character other than a dot.
   */
  predicate ExtensionStartsAt(p: string, i: int) {
    IsLastDot(p, i) &&
    (forall j :: i < j < |p| ==> p[j] !in PATH_SEPARATORS) &&
    exists k :: 0 <= k < i && p[k] != '.' && forall j :: k <= j < i ==> p[j] !in PATH_SEPARATORS
  }

  /** `splitext` finds an extension exactly when one starts at a position of the path, and it starts there. */
  lemma SplitExtNonEmptyIff(p: string)
    ensures SplitExt(p).1 != [] <==> exists i :: ExtensionStartsAt(p, i)
    ensures forall i :: ExtensionStartsAt(p, i) ==> SplitExt(p).1 == p[i..]
  {
    var sep := LastIndexIn(p, PATH_SEPARATORS);
    var dot := LastIndexIn(p, {'.'});
    if dot > sep && HasNonDotBetween(p, sep, dot) {
      var k :| sep < k < dot && p[k] != '.';
      assert IsLastDot(p, dot);
      assert ExtensionStartsAt(p, dot);
    }
    forall i | ExtensionStartsAt(p, i)
      ensures dot == i && dot > sep && HasNonDotBetween(p, sep, dot)
    {
      LastDotIsLastIndex(p, i);
      var k :| 0 <= k < i && p[k] != '.' && forall j :: k <= j < i ==> p[j] !in PATH_SEPARATORS;
      assert sep < k;
    }
  }

  /** Whether a name holds no path separator, which is what sanitised upload names look like. */
  predicate NoSeparators(s: string) {
    forall i :: 0 <= i < |s| ==> s[i] !in PATH_SEPARATORS
  }

  /**
   * The stem of `stem.ext` is `stem` when neither part has a separator, the
   * extension has no dot and the stem is not made of dots only.
   */
  lemma SplitExtOfStemAndExtension(stem: string, ext: string)
    requires NoSeparators(stem) && NoSeparators(ext)
    requires '.' !in ext
    requires exists k :: 0 <= k < |stem| && stem[k] != '.'
    ensures SplitExt(stem + "." + ext) == (stem, "." + ext)
  {
    var p := stem + "." + ext;
    var sep := LastIndexIn(p, PATH_SEPARATORS);
    var dot := LastIndexIn(p, {'.'});
    assert p[|stem|] in {'.'};
    assert forall j :: |stem| < j < |p| ==> p[j] == ext[j - |stem| - 1];
    assert dot == |stem|;
    forall j | 0 <= j < |p| ensures p[j] !in PATH_SEPARATORS {
      if j < |stem| {
        assert p[j] == stem[j];
      }
    }
    assert sep == -1;
    var k :| 0 <= k < |stem| && stem[k] != '.';
    assert p[k] == stem[k];
    assert HasNonDotBetween(p, sep, dot);
    assert p[..dot] == stem;
    assert p[dot..] == "." + ext;
  }

  /**
   * For a sanitised name that has a dot and does not start with one,
   * `os.path.splitext` and `rsplit('.', 1)` agree on the part before the
   * last dot.
   */
  lemma StemAgreesWithRSplit(filename: string)
    requires NoSeparators(filename)
    requires '.' in filename && filename[0] != '.'
    ensures Stem(filename) == RSplitLastDot(filename)[0]
  {
    var parts := RSplitLastDot(filename);
    assert filename == parts[0] + "." + parts[1];
    assert (parts[0] + "." + parts[1])[0] == if |parts[0]| > 0 then parts[0][0] else '.';
    assert parts[0][0] != '.';
    assert NoSeparators(parts[0]) by {
      forall i | 0 <= i < |parts[0]| ensures parts[0][i] !in PATH_SEPARATORS {
        assert filename[i] == parts[0][i];
      }
    }
    assert NoSeparators(parts[1]) by {
      forall i | 0 <= i < |parts[1]| ensures parts[1][i] !in PATH_SEPARATORS {
        assert filename[|parts[0]| + 1 + i] == parts[1][i];
      }
    }
    SplitExtOfStemAndExtension(parts[0], parts[1]);
  }

  lemma SplitExtExample()
    ensures SplitExt("report.final.pdf") == ("report.final", ".pdf")
  {
    assert "report.final" + "." + "pdf" == "report.final.pdf";
    assert "report.final"[0] != '.';
    SplitExtOfStemAndExtension("report.final", "pdf");
  }

  /** A name whose only dot leads it has no extension. */
  lemma LeadingDotExample()
    ensures SplitExt(".bashrc") == (".bashrc", "")
  {
    var b := ".bashrc";
    assert IsLastDot(b, 0);
    LastDotIsLastIndex(b, 0);
  }
}
