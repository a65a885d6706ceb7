/** The few operations on Python `str` values that the attendance tool relies on:
    `str.strip`, `str.endswith` and `os.path.splitext` (POSIX flavour, separator `/`,
    extension separator `.`). Python strings are sequences of code points, as Dafny strings are. */
module PyText {

  /** The characters that `str.strip()` with no argument removes: those for which
      `str.isspace()` holds. */
  predicate IsSpace(c: char) {
    || c == ' '
    || ('\t' <= c <= '\r')
    || ('\U{1C}' <= c <= '\U{1F}')
    || c == '\U{85}' || c == '\U{A0}' || c == '\U{1680}'
    || ('\U{2000}' <= c <= '\U{200A}')
    || c == '\U{2028}' || c == '\U{2029}' || c == '\U{202F}' || c == '\U{205F}' || c == '\U{3000}'
  }

  /** `s.lstrip()`: the longest suffix of `s` that does not start with whitespace. */
  function LStrip(s: string): (r: string)
    ensures |r| <= |s| && r == s[|s| - |r|..]
    ensures r == [] || !IsSpace(r[0])
    ensures forall i :: 0 <= i < |s| - |r| ==> IsSpace(s[i])
  {
    if s != [] && IsSpace(s[0]) then LStrip(s[1..]) else s
  }

  /** `s.rstrip()`: the longest prefix of `s` that does not end with whitespace. */
  function RStrip(s: string): (r: string)
    ensures |r| <= |s| && r == s[..|r|]
    ensures r == [] || !IsSpace(r[|r| - 1])
    ensures forall i :: |r| <= i < |s| ==> IsSpace(s[i])
  {
    if s != [] && IsSpace(s[|s| - 1]) then RStrip(s[..|s| - 1]) else s
  }

  /** `s.strip()`: no longer than `s`, and neither starting nor ending with whitespace. */
  function Strip(s: string): (r: string)
    ensures |r| <= |s|
    ensures r == [] || (!IsSpace(r[0]) && !IsSpace(r[|r| - 1]))
  {
    RStrip(LStrip(s))
  }

  /** Stripping leaves nothing exactly when every character is whitespace. */
  lemma StripEmptyIffAllSpace(s: string)
    ensures Strip(s) == [] <==> forall i :: 0 <= i < |s| ==> IsSpace(s[i])
  {
    var l := LStrip(s);
    if Strip(s) == [] {
      assert l == [];
    } else {
      var r := RStrip(l);
      assert r[0] == s[|s| - |l|];
    }
  }

  /** `s.endswith(suffix)` for a single suffix. */
  predicate EndsWith(s: string, suffix: string)
    ensures EndsWith(s, suffix) ==> |suffix| <= |s| && s == s[..|s| - |suffix|] + suffix
  {
    |suffix| <= |s| && s[|s| - |suffix|..] == suffix
  }

  /** The index of the last occurrence of `c` in `s`, or -1 (`str.rfind`). */
  function RFind(s: string, c: char): (k: int)
    ensures -1 <= k < |s|
    ensures k >= 0 ==> s[k] == c
    ensures forall j :: k < j < |s| ==> s[j] != c
  {
    if s == [] then -1
    else if s[|s| - 1] == c then |s| - 1
    else RFind(s[..|s| - 1], c)
  }

  /** `os.path.splitext(p)` on POSIX: the extension starts at the last `.` of the last path
      component, unless everything in that component before the dot is dots as well
      (so `.bashrc` has no extension). */
  function SplitExt(p: string): (r: (string, string))
    ensures r.0 + r.1 == p
    ensures r.1 == [] || (r.1[0] == '.' && '.' !in r.1[1..] && '/' !in r.1)
  {
    var sepIndex := RFind(p, '/');
    var dotIndex := RFind(p, '.');
    if dotIndex > sepIndex && exists k :: sepIndex < k < dotIndex && p[k] != '.'
    then (p[..dotIndex], p[dotIndex..])
    else (p, [])
  }

  /** `os.path.splitext(p)[0]`: a prefix of `p`, followed in `p` by a `.` when shorter. */
  function Stem(p: string): (r: string)
    ensures |r| <= |p| && p[..|r|] == r
    ensures |r| < |p| ==> p[|r|] == '.'
  {
    SplitExt(p).0
  }

  /** Only the last extension is removed: `bob.smith.jpg` has stem `bob.smith`. */
  lemma StemOfDottedName()
    ensures Stem("bob.smith.jpg") == "bob.smith"
  {
    assert "bob.smith"[0] != '.';
    StemOfAppendedExtension("bob.smith", ".jpg");
    assert "bob.smith" + ".jpg" == "bob.smith.jpg";
  }

  /** Appending an extension and splitting it off again gives the name back, as long as the
      name has no `/` and is not made of dots alone. */
  lemma {:induction false} StemOfAppendedExtension(name: string, ext: string)
    requires '/' !in name
    requires exists k :: 0 <= k < |name| && name[k] != '.'
    requires |ext| >= 1 && ext[0] == '.' && '.' !in ext[1..] && '/' !in ext
    ensures SplitExt(name + ext) == (name, ext)
  {
    var p := name + ext;
    var k :| 0 <= k < |name| && name[k] != '.';
    assert p[k] == name[k];
    assert RFind(p, '.') == |name| by {
      forall j | |name| < j < |p| ensures p[j] != '.' {
        assert p[j] == ext[1..][j - |name| - 1];
      }
      RFindIsLast(p, '.', |name|);
    }
    assert RFind(p, '/') == -1 by {
      forall j | 0 <= j < |p| ensures p[j] != '/' {
        if j < |name| { assert p[j] == name[j]; } else { assert p[j] == ext[j - |name|]; }
      }
      RFindAbsent(p, '/');
    }
    assert p[..|name|] == name;
    assert p[|name|..] == ext;
  }

  lemma {:induction false} RFindIsLast(s: string, c: char, k: nat)
    requires k < |s| && s[k] == c
    requires forall j :: k < j < |s| ==> s[j] != c
    ensures RFind(s, c) == k
  {
    if k < |s| - 1 {
      RFindIsLast(s[..|s| - 1], c, k);
    }
  }

  lemma {:induction false} RFindAbsent(s: string, c: char)
    requires forall j :: 0 <= j < |s| ==> s[j] != c
    ensures RFind(s, c) == -1
  {
    if s != [] {
      RFindAbsent(s[..|s| - 1], c);
    }
  }
}
