/**
 * The filename disambiguator `ensure_unique_filename`, shared (as identical
 * copies) by the single and the multi packet service, together with the two
 * pieces of Ruby's File API it relies on: File.extname and File.basename with
 * a suffix, both for names without a '/'.
 */
module FileNames {
  import Decimal

  /**
   * The attachment filenames the model covers: no directory part, so
   * File.basename keeps them whole, and no NUL character, on which
   * File.extname raises ArgumentError.
   */
  predicate PlainName(name: string) {
    '/' !in name && '\0' !in name
  }

  /** How many dots the name starts with; File.extname skips them. */
  function LeadingDots(s: string): (k: nat)
    ensures k <= |s|
    ensures forall i :: 0 <= i < k ==> s[i] == '.'
    ensures k < |s| ==> s[k] != '.'
  {
    if s != [] && s[0] == '.' then 1 + LeadingDots(s[1..]) else 0
  }

  /** The index of the last '.' at or after `lo`, or -1 when there is none. */
  function LastDotFrom(s: string, lo: nat): (i: int)
    ensures i == -1 || (lo <= i < |s| && s[i] == '.')
    ensures forall j :: i < j < |s| && lo <= j ==> s[j] != '.'
    decreases |s|
  {
    if |s| <= lo then -1
    else if s[|s| - 1] == '.' then |s| - 1
    else LastDotFrom(s[..|s| - 1], lo)
  }

  /** Where File.extname's extension begins: the last dot after the leading dots, else |s|. */
  function ExtStart(s: string): (k: nat)
    ensures LeadingDots(s) <= k <= |s|
    ensures k < |s| ==> 0 < k && s[k] == '.'
    ensures forall j :: k < j < |s| ==> s[j] != '.'
    ensures k == |s| ==> forall j :: LeadingDots(s) <= j < |s| ==> s[j] != '.'
  {
    var d := LastDotFrom(s, LeadingDots(s));
    if d < 0 then |s| else d
  }

  /**
   * File.extname for a name without '/' (Ruby 2.7 and later, non-Windows):
   * "" when no dot follows the leading dots, otherwise everything from the last
   * dot on (so a trailing dot gives ".").
   */
  function ExtName(s: string): string {
    s[ExtStart(s)..]
  }

  /**
   * File.basename(s, suffix) for a name without '/': the suffix is removed when
   * it is non-empty, strictly shorter than the name, and ends it. (The ".*"
   * wildcard suffix is not modelled: callers pass the name's own extension.)
   */
  function BaseName(s: string, suffix: string): string {
    if 0 < |suffix| < |s| && s[|s| - |suffix|..] == suffix then s[..|s| - |suffix|] else s
  }

  /** The stem that ensure_unique_filename keeps: File.basename(name, File.extname(name)). */
  function Stem(s: string): string {
    BaseName(s, ExtName(s))
  }

  /** Stem and extension split the name at the extension's dot, and the extension holds one dot. */
  lemma SplitName(s: string)
    ensures Stem(s) + ExtName(s) == s
    ensures Stem(s) == s[..ExtStart(s)]
    ensures ExtName(s) == [] || (ExtName(s)[0] == '.' && '.' !in ExtName(s)[1..] && Stem(s) != [])
  {
    var k := ExtStart(s);
    var e := s[k..];
    if k < |s| {
      assert s[|s| - |e|..] == e;
      forall j | 0 <= j < |e[1..]| ensures e[1..][j] != '.' {
        assert e[1..][j] == s[k + 1 + j];
      }
    }
  }

  /**
   * Where the split falls, read off the name: with a first character other
   * than '.', the extension starts at the last dot, and there is none when
   * the name has no dot at all.
   */
  lemma SplitAt(s: string, k: nat)
    requires 0 < k <= |s| && s[0] != '.'
    requires k < |s| ==> s[k] == '.'
    requires forall j :: k < j < |s| ==> s[j] != '.'
    requires k == |s| ==> forall j :: 0 <= j < |s| ==> s[j] != '.'
    ensures ExtName(s) == s[k..] && Stem(s) == s[..k]
  {
    SplitName(s);
    assert LeadingDots(s) == 0;
  }

  /** The candidate tried for counter n: "#{basename}(#{n})#{extname}". */
  function DupName(base: string, ext: string, n: nat): string {
    base + "(" + Decimal.Show(n) + ")" + ext
  }

  /** Distinct counters give distinct candidates. */
  lemma DupNameInjective(base: string, ext: string, a: nat, b: nat)
    ensures DupName(base, ext, a) == DupName(base, ext, b) ==> a == b
  {
    if DupName(base, ext, a) == DupName(base, ext, b) {
      var s := DupName(base, ext, a);
      var sa, sb := Decimal.Show(a), Decimal.Show(b);
      assert |sa| == |sb|;
      var lo := |base| + 1;
      assert s[lo..lo + |sa|] == sa;
      assert DupName(base, ext, b)[lo..lo + |sb|] == sb;
      Decimal.ShowInjective(a, b);
    }
  }

  /** The candidates for counters 1..k. */
  function Candidates(base: string, ext: string, k: nat): set<string> {
    set m: nat | 1 <= m <= k :: DupName(base, ext, m)
  }

  lemma {:induction false} CandidatesSize(base: string, ext: string, k: nat)
    ensures |Candidates(base, ext, k)| == k
  {
    if k > 0 {
      CandidatesSize(base, ext, k - 1);
      var prev := Candidates(base, ext, k - 1);
      assert Candidates(base, ext, k) == prev + {DupName(base, ext, k)};
      if DupName(base, ext, k) in prev {
        var m: nat :| 1 <= m <= k - 1 && DupName(base, ext, m) == DupName(base, ext, k);
        DupNameInjective(base, ext, m, k);
      }
    }
  }

  lemma {:induction false} SeqSetSize(s: seq<string>)
    ensures |set x | x in s| <= |s|
  {
    if s != [] {
      var t := s[..|s| - 1];
      SeqSetSize(t);
      assert (set x | x in s) == (set x | x in t) + {s[|s| - 1]};
    }
  }

  lemma SubsetSize(a: set<string>, b: set<string>)
    requires a <= b
    ensures |a| <= |b|
  {
    assert b == a + (b - a);
  }

  /**
   * Pigeonhole: if the candidates for 1..k are all taken, the list has at
   * least k names, because the candidates are pairwise distinct.
   */
  lemma TakenBound(base: string, ext: string, existing: seq<string>, k: nat)
    requires forall m :: 1 <= m <= k ==> DupName(base, ext, m) in existing
    ensures k <= |existing|
  {
    CandidatesSize(base, ext, k);
    SubsetSize(Candidates(base, ext, k), set x | x in existing);
    SeqSetSize(existing);
  }

  /** The smallest counter at or above `from` whose candidate is free, all below `from` being taken. */
  function FirstFree(base: string, ext: string, existing: seq<string>, from: nat): (n: nat)
    requires 1 <= from
    requires forall m :: 1 <= m < from ==> DupName(base, ext, m) in existing
    ensures from <= n <= |existing| + 1
    ensures DupName(base, ext, n) !in existing
    ensures forall m :: from <= m < n ==> DupName(base, ext, m) in existing
    decreases |existing| + 1 - from
  {
    TakenBound(base, ext, existing, from - 1);
    if DupName(base, ext, from) !in existing then from
    else
      TakenBound(base, ext, existing, from);
      FirstFree(base, ext, existing, from + 1)
  }

  /** What ensure_unique_filename(name, existing) returns. */
  function Resolve(name: string, existing: seq<string>): string
    requires PlainName(name)
  {
    if name !in existing then name
    else DupName(Stem(name), ExtName(name), FirstFree(Stem(name), ExtName(name), existing, 1))
  }

  /**
   * The resolved name is never taken; it is the name itself exactly when the
   * name is free; otherwise it is basename(n)ext for the smallest free n >= 1,
   * and that n is at most |existing| + 1.
   */
  lemma ResolveSpec(name: string, existing: seq<string>)
    requires PlainName(name)
    ensures Resolve(name, existing) !in existing
    ensures Resolve(name, existing) == name <==> name !in existing
    ensures name in existing ==>
      exists n: nat :: 1 <= n <= |existing| + 1 &&
        Resolve(name, existing) == DupName(Stem(name), ExtName(name), n) &&
        forall m :: 1 <= m < n ==> DupName(Stem(name), ExtName(name), m) in existing
  {
    if name in existing {
      var n := FirstFree(Stem(name), ExtName(name), existing, 1);
      assert Resolve(name, existing) == DupName(Stem(name), ExtName(name), n);
    }
  }

  /** A counter whose candidate is free while all smaller ones are taken is the one chosen. */
  lemma ResolveAt(name: string, existing: seq<string>, n: nat)
    requires PlainName(name) && name in existing && 1 <= n
    requires DupName(Stem(name), ExtName(name), n) !in existing
    requires forall m :: 1 <= m < n ==> DupName(Stem(name), ExtName(name), m) in existing
    ensures Resolve(name, existing) == DupName(Stem(name), ExtName(name), n)
  {
    var k := FirstFree(Stem(name), ExtName(name), existing, 1);
    assert k == n;
  }

  /** `path` is `name` itself or one of its disambiguated forms. */
  ghost predicate IsVariant(path: string, name: string) {
    path == name || exists n: nat :: 1 <= n && path == DupName(Stem(name), ExtName(name), n)
  }

  lemma ResolveIsVariant(name: string, existing: seq<string>)
    requires PlainName(name)
    ensures IsVariant(Resolve(name, existing), name)
  {
    if name in existing {
      var n := FirstFree(Stem(name), ExtName(name), existing, 1);
      assert Resolve(name, existing) == DupName(Stem(name), ExtName(name), n);
    }
  }

  /**
   * ensure_unique_filename: return the name when free, otherwise try
   * basename(1)ext, basename(2)ext, ... and return the first one not taken.
   */
  method EnsureUniqueFilename(filename: string, existingNames: seq<string>) returns (r: string)
    requires PlainName(filename)
    ensures r == Resolve(filename, existingNames)
  {
    if filename !in existingNames {
      return filename;
    }
    var dupCount: nat := 1;
    var extname := ExtName(filename);
    var basename := BaseName(filename, extname);
    var newFilename := basename + "(" + Decimal.Show(dupCount) + ")" + extname;
    while newFilename in existingNames
      invariant 1 <= dupCount <= |existingNames| + 1
      invariant newFilename == DupName(basename, extname, dupCount)
      invariant forall m :: 1 <= m < dupCount ==> DupName(basename, extname, m) in existingNames
      decreases |existingNames| + 1 - dupCount
    {
      TakenBound(basename, extname, existingNames, dupCount);
      dupCount := dupCount + 1;
      newFilename := basename + "(" + Decimal.Show(dupCount) + ")" + extname;
    }
    ResolveAt(filename, existingNames, dupCount);
    return newFilename;
  }
}
