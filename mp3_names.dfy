/**
 * The two ways the code recognises an MP3 file name: the test
 * `name.toLowerCase().endsWith(".mp3")` used by every listing, and the
 * regular expression `/\.mp3$/i` used to cut the extension off a title.
 */
module Mp3Names {
  import opened Strings

  /** `name.toLowerCase().endsWith(".mp3")` */
  predicate IsMp3Name(name: string)
  {
    EndsWith(ToLower(name), ".mp3")
  }

  /** A name whose last character is not `3` is not an MP3 name, whatever its case. */
  lemma NotMp3UnlessEndsIn3(name: string)
    requires name != [] && name[|name| - 1] != '3'
    ensures !IsMp3Name(name)
  {
    var l := ToLower(name);
    assert l[|l| - 1] == LowerChar(name[|name| - 1]) != '3';
    assert ".mp3"[3] == '3';
  }

  /** A match of `/\.mp3$/i`: a dot, `m` or `M`, `p` or `P`, and `3` at the very end. */
  predicate HasMp3Suffix(s: string)
  {
    && |s| >= 4
    && s[|s| - 4] == '.'
    && (s[|s| - 3] == 'm' || s[|s| - 3] == 'M')
    && (s[|s| - 2] == 'p' || s[|s| - 2] == 'P')
    && s[|s| - 1] == '3'
  }

  /** The listing test and the regular expression accept the same names. */
  lemma Mp3TestsAgree(name: string)
    ensures IsMp3Name(name) <==> HasMp3Suffix(name)
  {
    var l := ToLower(name);
    if |name| >= 4 {
      var n := |name|;
      assert l[n - 4..] == [l[n - 4], l[n - 3], l[n - 2], l[n - 1]];
      assert ".mp3" == ['.', 'm', 'p', '3'];
    }
  }

  /** `s.replace(/\.mp3$/i, "")` */
  function StripMp3Suffix(s: string): (r: string)
    ensures HasMp3Suffix(s) ==> r == s[..|s| - 4]
    ensures !HasMp3Suffix(s) ==> r == s
  {
    if HasMp3Suffix(s) then s[..|s| - 4] else s
  }

  /** Only one extension is removed: the result is `s` minus its last four characters or `s` itself. */
  lemma StripRemovesOneSuffix(s: string)
    ensures var r := StripMp3Suffix(s);
      (r == s && !HasMp3Suffix(s)) || (|r| == |s| - 4 && s == r + s[|s| - 4..] && IsMp3Name(s))
  {
    Mp3TestsAgree(s);
  }
}
