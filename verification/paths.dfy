/** The parts of Python's `posixpath` that the batch uses to derive paths:
    `os.path.join` of two components, `os.path.basename` and `os.path.splitext`. */
module Paths {
  import opened Text

  /** `os.path.join(a, b)`. An absolute `b` replaces `a`; otherwise one separator
      is inserted unless `a` is empty or already ends in one. */
  function Join(a: string, b: string): (r: string)
    ensures |b| > 0 && b[0] == '/' ==> r == b
    ensures (|b| == 0 || b[0] != '/') ==> |a| <= |r| && r[..|a|] == a && EndsWith(r, b)
    ensures (|b| == 0 || b[0] != '/') ==> |r| == |a| + |b| || (|r| == |a| + |b| + 1 && r[|a|] == '/')
    ensures (|b| == 0 || b[0] != '/') && a != [] ==> r[|r| - |b| - 1] == '/'
    ensures (|b| == 0 || b[0] != '/') && (a == [] || a[|a| - 1] == '/') ==> |r| == |a| + |b|
  {
    if |b| > 0 && b[0] == '/' then b
    else if a == [] || a[|a| - 1] == '/' then a + b
    else a + "/" + b
  }

  /** `os.path.basename(p)`: everything after the last separator. */
  function Basename(p: string): (r: string) {
    p[RFind(p, '/') + 1..]
  }

  /** `os.path.splitext(p)`: split at the last dot of the last path component,
      unless everything in that component before the dot is a dot too. */
  function SplitExt(p: string): (r: (string, string))
    ensures r.0 + r.1 == p
  {
    var sepIndex := RFind(p, '/');
    var dotIndex := RFind(p, '.');
    if dotIndex > sepIndex && !AllDots(p[sepIndex + 1..dotIndex]) then
      (p[..dotIndex], p[dotIndex..])
    else
      (p, [])
  }

  /** The extension `splitext` splits off is empty or a dot followed by neither
      a dot nor a separator, and a dot-only component is never split. */
  lemma SplitExtShape(p: string)
    ensures var ext := SplitExt(p).1;
      ext == [] || (ext[0] == '.' && '.' !in ext[1..] && '/' !in ext)
    ensures SplitExt(p).1 != [] ==> !AllDots(Basename(SplitExt(p).0))
  {
    var sepIndex := RFind(p, '/');
    var dotIndex := RFind(p, '.');
    var ext := SplitExt(p).1;
    if ext != [] {
      assert ext == p[dotIndex..];
      forall j | 1 <= j < |ext| ensures ext[j] != '.' && ext[j] != '/' {
        assert ext[j] == p[dotIndex + j];
      }
      assert ext[0] == '.' && ext[0] != '/';
      var stem := SplitExt(p).0;
      assert stem == p[..dotIndex];
      assert RFind(stem, '/') == sepIndex;
      assert Basename(stem) == p[sepIndex + 1..dotIndex];
    }
  }

  /** Joining a directory with a plain entry name and taking the basename gives
      back the entry name. */
  lemma JoinBasename(dir: string, name: string)
    requires name != [] && '/' !in name
    ensures Basename(Join(dir, name)) == name
  {
    var p := Join(dir, name);
    var k := |p| - |name| - 1;
    assert p[k + 1..] == name;
    var i := RFind(p, '/');
    if dir == [] {
      assert p == name;
      assert i == -1;
    } else {
      assert p[k] == '/';
      assert i == k;
    }
  }
}
