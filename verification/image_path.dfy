/** The upload file type: `extname(imagePath).slice(1)`, Node's POSIX
    `path.extname` with its leading dot removed. */
module ImagePath {

  /** The path `captureScreenshot` writes to and returns: no option overrides it. */
  const DefaultScreenshotPath: string := "screenshot.png"

  /** `c` does not occur in `s`. */
  predicate Lacks(s: string, c: char) {
    forall k | 0 <= k < |s| :: s[k] != c
  }

  /** The last position below `n` where `s` holds `c`, or -1 when there is
      none. */
  function LastBefore(s: string, c: char, n: nat): (r: int)
    requires n <= |s|
    ensures -1 <= r < n
    ensures r >= 0 ==> s[r] == c
    ensures forall k | r < k < n :: s[k] != c
  {
    if n == 0 then -1
    else if s[n - 1] == c then n - 1
    else LastBefore(s, c, n - 1)
  }

  /** The length of the first `n` characters of `p` once the separators at
      their end are dropped. */
  function TrimmedLength(p: string, n: nat): (r: nat)
    requires n <= |p|
    ensures r <= n
    ensures r == 0 || p[r - 1] != '/'
    ensures forall k | r <= k < n :: p[k] == '/'
  {
    if n > 0 && p[n - 1] == '/' then TrimmedLength(p, n - 1) else n
  }

  /** Where `p` ends once trailing separators are dropped. */
  function BaseEnd(p: string): nat {
    TrimmedLength(p, |p|)
  }

  /** Where the base name starts: after the last separator before `BaseEnd`. */
  function BaseStart(p: string): (r: nat)
    ensures r <= BaseEnd(p)
  {
    LastBefore(p, '/', BaseEnd(p)) + 1
  }

  /** The file name `extname` looks at: the last component once trailing
      separators are dropped. */
  function BaseName(p: string): string {
    p[BaseStart(p)..BaseEnd(p)]
  }

  /** Where the extension of `p` starts, or -1 when it has none: the last dot
      of the base name, unless that dot opens the base name or the base name
      is `..`, the parent directory. */
  function ExtensionStart(p: string): (r: int)
    ensures r == -1 || (BaseStart(p) < r < BaseEnd(p) && p[r] == '.')
  {
    var b := BaseStart(p);
    var e := BaseEnd(p);
    var dot := LastBefore(p, '.', e);
    if dot <= b || (e - b == 2 && p[b] == '.' && p[b + 1] == '.') then -1 else dot
  }

  /** Node's POSIX `path.extname`: from the last dot of the base name to its
      end, or empty when the base name has no dot, starts with its only dot,
      or is `..`. */
  function Extname(p: string): (r: string)
    ensures r == [] || (r[0] == '.' && Lacks(r[1..], '.'))
    ensures Lacks(r, '/')
  {
    var dot := ExtensionStart(p);
    if dot < 0 then []
    else
      ExtensionIsClean(p, dot);
      p[dot..BaseEnd(p)]
  }

  /** From the extension's dot to the end of the base name there is no other
      dot and no separator. */
  lemma ExtensionIsClean(p: string, dot: int)
    requires dot == ExtensionStart(p) && dot >= 0
    ensures var e := p[dot..BaseEnd(p)]; e[0] == '.' && Lacks(e[1..], '.') && Lacks(e, '/')
  {
    var e := p[dot..BaseEnd(p)];
    assert forall k | 0 <= k < |e| :: e[k] == p[dot + k];
    assert forall k | 0 <= k < |e[1..]| :: e[1..][k] == p[dot + 1 + k];
  }

  /** The `fileType` sent with the upload: `extname(imagePath).slice(1)`,
      the extension without its dot, which is empty when there is no
      extension. */
  function FileType(imagePath: string): (r: string)
    ensures Lacks(r, '.') && Lacks(r, '/')
    ensures Extname(imagePath) == [] ==> r == []
    ensures Extname(imagePath) != [] ==> Extname(imagePath) == ['.'] + r
  {
    var dot := ExtensionStart(imagePath);
    if dot < 0 then []
    else
      WithoutLeadingDot(Extname(imagePath));
      imagePath[dot + 1..BaseEnd(imagePath)]
  }

  lemma WithoutLeadingDot(e: string)
    requires e != [] && e[0] == '.' && Lacks(e[1..], '.') && Lacks(e, '/')
    ensures Lacks(e[1..], '/')
    ensures e == ['.'] + e[1..]
  {
    forall k | 0 <= k < |e[1..]|
      ensures e[1..][k] != '/'
    {
      assert e[1..][k] == e[k + 1];
    }
  }

  /** A path made of a stem and a dot-free extension uploads with that
      extension as its file type. */
  lemma FileTypeOfStemAndExtension(stem: string, ext: string)
    requires stem != [] && stem[|stem| - 1] != '/'
    requires Lacks(ext, '.') && Lacks(ext, '/')
    ensures FileType(stem + "." + ext) == ext
  {
    var p := stem + "." + ext;
    var at := |stem|;
    assert p[at] == '.';
    assert forall k | at < k < |p| :: p[k] == ext[k - at - 1];
    assert BaseEnd(p) == |p| by {
      assert p[|p| - 1] != '/';
    }
    assert LastBefore(p, '.', |p|) == at;
    assert LastBefore(p, '/', |p|) < at - 1 by {
      assert p[at - 1] == stem[at - 1];
    }
    if ExtensionStart(p) == at {
      var e := p[at..];
      assert e == "." + ext by {
        forall k | 0 <= k < |e|
          ensures e[k] == ("." + ext)[k]
        {
        }
      }
      assert e[1..] == ext;
    } else {
      assert ext == [];
    }
  }

  /** The base name `..`, the parent directory. */
  predicate IsDotDot(b: string) {
    |b| == 2 && b[0] == '.' && b[1] == '.'
  }

  /** The upload has no file type exactly when the base name is `..`, has no
      dot after its first character, or ends in a dot. */
  lemma NoFileTypeIff(p: string)
    ensures FileType(p) == [] <==>
      var b := BaseName(p);
      || IsDotDot(b)
      || (forall k | 0 < k < |b| :: b[k] != '.')
      || (b != [] && b[|b| - 1] == '.')
  {
    var b := BaseName(p);
    var start, end := BaseStart(p), BaseEnd(p);
    var dot := LastBefore(p, '.', end);
    assert |b| == end - start;
    assert forall k | 0 <= k < |b| :: b[k] == p[start + k];
    assert (forall k | 0 < k < |b| :: b[k] != '.') <==> dot <= start by {
      if dot > start {
        assert b[dot - start] == '.';
      }
    }
    assert IsDotDot(b) <==> end - start == 2 && p[start] == '.' && p[start + 1] == '.';
    assert (b != [] && b[|b| - 1] == '.') <==> end > start && p[end - 1] == '.';
    assert FileType(p) == [] <==> ExtensionStart(p) < 0 || dot == end - 1;
  }

  /** The screenshot is uploaded as `png`. */
  lemma DefaultFileTypeIsPng()
    ensures FileType(DefaultScreenshotPath) == "png"
  {
    assert "screenshot" + "." + "png" == DefaultScreenshotPath;
    FileTypeOfStemAndExtension("screenshot", "png");
  }
}
