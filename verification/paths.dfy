/** The parts of `System.IO.Path` the core uses, applied to a bare file name (a name with
    no directory separator): `GetExtension`, `GetFileNameWithoutExtension` and
    `ChangeExtension`. All three split the name at its last '.'. */
module Paths {

  /** Index of the last occurrence of `c` in `s`, or -1. */
  function LastIndexOf(s: string, c: char): (i: int)
    ensures -1 <= i < |s|
    ensures i >= 0 ==> s[i] == c
    ensures forall j :: i < j < |s| ==> s[j] != c
  {
    if s == [] then -1
    else if s[|s| - 1] == c then |s| - 1
    else LastIndexOf(s[..|s| - 1], c)
  }

  /** `Path.GetExtension`: from the last '.' to the end, or empty when there is no '.'
      or the '.' is the last character. The file list filters on the
      `FileSystemInfo.Extension` property, which gives "." rather than "" for a name ending
      in '.'; neither is ".mp3", so the filter is the same with either. */
  function Extension(name: string): string {
    var i := LastIndexOf(name, '.');
    if i < 0 || i == |name| - 1 then "" else name[i..]
  }

  /** `Path.GetFileNameWithoutExtension`: everything before the last '.'. */
  function FileNameWithoutExtension(name: string): string {
    var i := LastIndexOf(name, '.');
    if i < 0 then name else name[..i]
  }

  /** `Path.ChangeExtension` with an extension that starts with '.': the name without its
      extension, followed by the new one. */
  function ChangeExtension(name: string, ext: string): (r: string)
    requires |ext| > 0 && ext[0] == '.'
  {
    FileNameWithoutExtension(name) + ext
  }

  /** A name has extension ".mp3" exactly when it ends in ".mp3" (ordinal, case-sensitive). */
  lemma Mp3ExtensionIffSuffix(name: string)
    ensures Extension(name) == ".mp3" <==> |name| >= 4 && name[|name| - 4..] == ".mp3"
  {
    var i := LastIndexOf(name, '.');
    if Extension(name) == ".mp3" {
      assert name[i..] == ".mp3";
      assert |name| - i == 4;
    }
    if |name| >= 4 && name[|name| - 4..] == ".mp3" {
      var k := |name| - 4;
      assert name[k] == '.';
      assert name[k + 1] == 'm' && name[k + 2] == 'p' && name[k + 3] == '3';
      assert i == k;
    }
  }

  /** Upper-case ".MP3" is not the extension the file list accepts. */
  lemma UpperCaseMp3Rejected()
    ensures Extension("A.MP3") != ".mp3"
  {
    Mp3ExtensionIffSuffix("A.MP3");
    assert "A.MP3"[1..] == ".MP3";
  }

  /** Changing the extension gives a name with that extension and the same stem. */
  lemma ChangeExtensionRoundTrip(name: string, ext: string)
    requires |ext| > 1 && ext[0] == '.' && '.' !in ext[1..]
    ensures Extension(ChangeExtension(name, ext)) == ext
    ensures FileNameWithoutExtension(ChangeExtension(name, ext)) == FileNameWithoutExtension(name)
  {
    var stem := FileNameWithoutExtension(name);
    var r := stem + ext;
    assert r[|stem|] == '.';
    forall j | |stem| < j < |r| ensures r[j] != '.' {
      assert r[j] == ext[1..][j - |stem| - 1];
    }
    assert LastIndexOf(r, '.') == |stem|;
    assert r[|stem|..] == ext;
    assert r[..|stem|] == stem;
  }

  /** Without a '.', changing the extension appends it. */
  lemma ChangeExtensionOfUndotted(name: string, ext: string)
    requires |ext| > 0 && ext[0] == '.' && '.' !in name
    ensures ChangeExtension(name, ext) == name + ext
  {
  }

  /** With a '.' in `name`, anything without '.' appended to it is cut off again. */
  lemma ChangeExtensionDropsTail(name: string, tail: string, ext: string)
    requires |ext| > 0 && ext[0] == '.' && '.' in name && '.' !in tail
    ensures ChangeExtension(name + tail, ext) == ChangeExtension(name, ext)
  {
    var i := LastIndexOf(name, '.');
    var n := name + tail;
    assert n[i] == '.';
    forall j | i < j < |n| ensures n[j] != '.' {
      if j >= |name| {
        assert n[j] == tail[j - |name|];
      }
    }
    assert LastIndexOf(n, '.') == i;
    assert n[..i] == name[..i];
  }
}
