/**
 * `getAvailableFileName` in app.js: the name under which an imported file is
 * saved. The directory is the finite set of names `fileExists` answers true
 * for.
 */
module AppFiles {
  import opened Strings

  const DefaultName: string := "track.mp3"

  /** `fileName.trim() || "track.mp3"` */
  function Normalize(fileName: string): (r: string)
    ensures r != []
    ensures Trim(fileName) != [] ==> r == Trim(fileName)
    ensures Trim(fileName) == [] ==> r == DefaultName
  {
    var t := Trim(fileName);
    if t == [] then DefaultName else t
  }

  /** The name before its extension; the split is at the last dot, and only when that dot is not the first character. */
  function BaseOf(name: string): string
  {
    var dot := LastIndexOf(name, '.');
    if dot > 0 then name[..dot] else name
  }

  /** The extension, dot included, or nothing. */
  function ExtensionOf(name: string): string
  {
    var dot := LastIndexOf(name, '.');
    if dot > 0 then name[dot..] else ""
  }

  /**
   * Base and extension put back together give the name; a non-empty extension
   * is a dot with no further dot after it, and the base is never empty.
   */
  lemma SplitAtLastDot(name: string)
    requires name != []
    ensures BaseOf(name) + ExtensionOf(name) == name
    ensures BaseOf(name) != []
    ensures var e := ExtensionOf(name);
      e == [] || (e[0] == '.' && forall i :: 1 <= i < |e| ==> e[i] != '.')
    ensures ExtensionOf(name) == [] <==> LastIndexOf(name, '.') <= 0
  {
    var dot := LastIndexOf(name, '.');
    if dot > 0 {
      assert name[..dot] + name[dot..] == name;
      var e := ExtensionOf(name);
      forall i | 1 <= i < |e|
        ensures e[i] != '.'
      {
        assert e[i] == name[dot + i];
      }
    }
  }

  /** A leading dot is not an extension: `.mp3` has base `.mp3` and no extension. */
  lemma DotFileKeepsWholeName()
    ensures BaseOf(".mp3") == ".mp3" && ExtensionOf(".mp3") == ""
  {
    assert ".mp3"[..3] == ".mp";
    assert LastIndexOf(".mp", '.') == LastIndexOf(".m", '.');
    assert LastIndexOf(".m", '.') == LastIndexOf(".", '.');
  }

  /** `${base} (${counter})${extension}` */
  function Candidate(base: string, counter: nat, extension: string): string
  {
    base + " (" + Decimal(counter) + ")" + extension
  }

  /** The name tried at step `k`: the normalised name itself, then the numbered candidates. */
  function Probe(name: string, k: nat): string
  {
    if k == 0 then name else Candidate(BaseOf(name), k, ExtensionOf(name))
  }

  /** The numbered candidates are pairwise distinct. */
  lemma CandidateInjective(base: string, extension: string, j: nat, k: nat)
    requires Candidate(base, j, extension) == Candidate(base, k, extension)
    ensures j == k
  {
    var dj, dk := Decimal(j), Decimal(k);
    var tj := dj + ")" + extension;
    var tk := dk + ")" + extension;
    var c := Candidate(base, j, extension);
    assert c == (base + " (") + tj;
    assert c == (base + " (") + tk;
    assert tj == c[|base| + 2..] == tk;
    // A digit never equals ')', so the closing parenthesis sits at the same place in both.
    assert |dj| == |dk|;
    assert dj == tj[..|dj|] == tk[..|dk|] == dk;
    DecimalInjective(j, k);
  }

  /** No name is probed twice, so each probe that fails uses up one existing name. */
  lemma ProbeInjective(name: string, j: nat, k: nat)
    requires name != []
    requires Probe(name, j) == Probe(name, k)
    ensures j == k
  {
    SplitAtLastDot(name);
    if j != 0 && k != 0 {
      CandidateInjective(BaseOf(name), ExtensionOf(name), j, k);
    }
  }

  /** Probe `k` is free and every earlier probe is taken. */
  ghost predicate FirstFreeProbe(existing: set<string>, name: string, k: nat)
  {
    Probe(name, k) !in existing && forall j :: 0 <= j < k ==> Probe(name, j) in existing
  }

  /** The first free probe is unique, so the specification fixes the saved name. */
  lemma FirstFreeProbeUnique(existing: set<string>, name: string, j: nat, k: nat)
    requires FirstFreeProbe(existing, name, j) && FirstFreeProbe(existing, name, k)
    ensures j == k
  {
  }

  lemma SubsetCardinality(a: set<string>, b: set<string>)
    requires a <= b
    ensures |a| <= |b|
  {
    assert b == a + (b - a);
  }

  /** `tried` holds exactly the first `n` probes. */
  ghost predicate TriedExactly(tried: set<string>, name: string, n: nat)
  {
    && (forall j :: 0 <= j < n ==> Probe(name, j) in tried)
    && (forall x :: x in tried ==> exists j :: 0 <= j < n && x == Probe(name, j))
  }

  /** A taken probe joins the tried names as a new element. */
  lemma TriedGrows(existing: set<string>, name: string, tried: set<string>, n: nat)
    requires name != []
    requires tried <= existing && |tried| == n && TriedExactly(tried, name, n)
    requires Probe(name, n) in existing
    ensures var more := tried + {Probe(name, n)};
      more <= existing && |more| == n + 1 && TriedExactly(more, name, n + 1) && |more| <= |existing|
  {
    var p := Probe(name, n);
    if p in tried {
      var j :| 0 <= j < n && p == Probe(name, j);
      ProbeInjective(name, j, n);
      assert false;
    }
    var more := tried + {p};
    forall x | x in more
      ensures exists j :: 0 <= j < n + 1 && x == Probe(name, j)
    {
      if x != p {
        var j :| 0 <= j < n && x == Probe(name, j);
      }
    }
    SubsetCardinality(more, existing);
  }

  /** When the loop stops, the probe it stopped at is the first free one, and no later than `|existing|`. */
  lemma FreeProbeFound(existing: set<string>, name: string, tried: set<string>, n: nat)
    requires tried <= existing && |tried| == n && TriedExactly(tried, name, n)
    requires Probe(name, n) !in existing
    ensures n <= |existing| && FirstFreeProbe(existing, name, n)
    ensures name !in existing ==> n == 0
  {
    SubsetCardinality(tried, existing);
    if n > 0 {
      assert Probe(name, 0) in tried;
    }
  }

  /**
   * `getAvailableFileName`: the returned name is not in the directory; it is
   * the normalised name when that is free, and otherwise
   * `base (k)extension` for the least `k >= 1` that is free, with `k` at most
   * the number of names already present.
   */
  method GetAvailableFileName(existing: set<string>, fileName: string) returns (name: string)
    ensures name !in existing
    ensures Normalize(fileName) !in existing ==> name == Normalize(fileName)
    ensures exists k: nat ::
      (k <= |existing| && name == Probe(Normalize(fileName), k) && FirstFreeProbe(existing, Normalize(fileName), k))
  {
    var normalized := Normalize(fileName);
    name := ProbeFreeName(existing, normalized);
  }

  /**
   * The probing loop of `getAvailableFileName`, from the normalised name on:
   * it tries the name itself, then `base (1)extension`, `base (2)extension`,
   * and so on, and stops at the first one not present.
   */
  method ProbeFreeName(existing: set<string>, normalized: string) returns (name: string)
    requires normalized != []
    ensures name !in existing
    ensures normalized !in existing ==> name == normalized
    ensures exists k: nat :: (k <= |existing| && name == Probe(normalized, k) && FirstFreeProbe(existing, normalized, k))
  {
    var dotIndex := LastIndexOf(normalized, '.');
    var base := if dotIndex > 0 then normalized[..dotIndex] else normalized;
    var extension := if dotIndex > 0 then normalized[dotIndex..] else "";
    assert base == BaseOf(normalized) && extension == ExtensionOf(normalized);

    var candidate := normalized;
    var counter: nat := 1;
    ghost var tried: set<string> := {};
    while candidate in existing
      invariant counter >= 1
      invariant candidate == Probe(normalized, counter - 1)
      invariant tried <= existing && |tried| == counter - 1
      invariant TriedExactly(tried, normalized, counter - 1)
      decreases |existing| - |tried|
    {
      TriedGrows(existing, normalized, tried, counter - 1);
      tried := tried + {candidate};
      candidate := base + " (" + Decimal(counter) + ")" + extension;
      counter := counter + 1;
    }
    FreeProbeFound(existing, normalized, tried, counter - 1);
    name := candidate;
  }

  /**
   * Importing `a.mp3` three times into a directory that starts with just
   * `a.mp3` saves `a (1).mp3`, then `a (2).mp3`.
   */
  lemma RepeatedImportsCountUp()
    ensures FirstFreeProbe({"a.mp3"}, "a.mp3", 1)
    ensures Probe("a.mp3", 1) == "a (1).mp3"
    ensures FirstFreeProbe({"a.mp3", "a (1).mp3"}, "a.mp3", 2)
    ensures Probe("a.mp3", 2) == "a (2).mp3"
  {
    ProbesOfAMp3();
    assert "a (1).mp3"[0] != "a.mp3"[1];
    assert "a (2).mp3"[0] != "a.mp3"[1];
    assert "a (2).mp3"[3] != "a (1).mp3"[3];
  }

  lemma ProbesOfAMp3()
    ensures Probe("a.mp3", 1) == "a (1).mp3" && Probe("a.mp3", 2) == "a (2).mp3"
  {
    SplitOfAMp3();
    assert Decimal(1) == "1" && Decimal(2) == "2";
  }

  lemma SplitOfAMp3()
    ensures BaseOf("a.mp3") == "a" && ExtensionOf("a.mp3") == ".mp3"
  {
    assert "a.mp3"[..4] == "a.mp";
    assert LastIndexOf("a.mp3", '.') == 1 by {
      assert LastIndexOf("a.mp3", '.') == LastIndexOf("a.mp", '.');
      assert "a.mp"[..3] == "a.m" && "a.m"[..2] == "a.";
    }
  }
}
