/** Which names a certificate's dNSName covers: the string code, and the label rules it implements. */
module San {

  datatype Split = Whole | Cut(first: string, rest: string)

  // ---- the string operations -----------------------------------------------

  /** `trim_end_matches('.')`. */
  function TrimDots(s: string): string {
    if s != [] && s[|s| - 1] == '.' then TrimDots(s[..|s| - 1]) else s
  }

  function LowerChar(c: char): char {
    if 'A' <= c <= 'Z' then (c as int + 32) as char else c
  }

  /** `to_ascii_lowercase`. */
  function Lower(s: string): (r: string)
    ensures |r| == |s|
  {
    seq(|s|, i requires 0 <= i < |s| => LowerChar(s[i]))
  }

  function Normal(s: string): string {
    Lower(TrimDots(s))
  }

  /** `split_once('.')`. */
  function SplitOnce(s: string): (r: Split)
    ensures r.Whole? <==> '.' !in s
    ensures r.Cut? ==> s == r.first + "." + r.rest && '.' !in r.first
  {
    if s == [] then Whole
    else if s[0] == '.' then Cut([], s[1..])
    else
      match SplitOnce(s[1..])
      case Whole => Whole
      case Cut(first, rest) => Cut([s[0]] + first, rest)
  }

  /** `dns_name_matches`. */
  predicate DnsNameMatches(rawSni: string, rawPattern: string) {
    var sni, pattern := Normal(rawSni), Normal(rawPattern);
    if sni == [] || pattern == [] then false
    else if !("*." <= pattern) then sni == pattern
    else
      var rest := pattern[2..];
      if rest == [] || '.' !in rest then false
      else
        match SplitOnce(sni)
        case Cut(first, suffix) => first != [] && suffix == rest
        case Whole => false
  }

  /** `sni_matches_any`. */
  predicate SniMatchesAny(sni: string, sanDnsNames: seq<string>) {
    exists san <- sanDnsNames :: DnsNameMatches(sni, san)
  }

  // ---- labels --------------------------------------------------------------

  /** The dot-separated labels of a name. */
  function Labels(s: string): (ls: seq<string>)
    ensures |ls| >= 1
  {
    if s == [] then [[]]
    else if s[0] == '.' then [[]] + Labels(s[1..])
    else
      var ls := Labels(s[1..]);
      [[s[0]] + ls[0]] + ls[1..]
  }

  function Join(ls: seq<string>): string
    requires |ls| >= 1
  {
    if |ls| == 1 then ls[0] else ls[0] + "." + Join(ls[1..])
  }

  lemma {:induction false} JoinOfLabels(s: string)
    ensures Join(Labels(s)) == s
  {
    if s != [] {
      JoinOfLabels(s[1..]);
      var ls := Labels(s[1..]);
      assert s == [s[0]] + s[1..];
      if s[0] == '.' {
        assert Labels(s)[1..] == ls;
        assert Join(Labels(s)) == [] + "." + Join(ls);
      } else {
        assert Labels(s)[1..] == ls[1..];
        if |ls| > 1 {
          assert [s[0]] + (ls[0] + "." + Join(ls[1..])) == ([s[0]] + ls[0]) + "." + Join(ls[1..]);
        }
      }
    }
  }

  lemma LabelsAreInjective(a: string, b: string)
    ensures Labels(a) == Labels(b) <==> a == b
  {
    JoinOfLabels(a);
    JoinOfLabels(b);
  }

  /** `split_once` takes off the first label. */
  lemma {:induction false} LabelsOfSplit(s: string)
    ensures
      match SplitOnce(s)
      case Whole => Labels(s) == [s]
      case Cut(first, rest) => Labels(s) == [first] + Labels(rest)
  {
    if s != [] {
      LabelsOfSplit(s[1..]);
      assert s == [s[0]] + s[1..];
    }
  }

  lemma SplitOfConcat(first: string, rest: string)
    requires '.' !in first
    ensures SplitOnce(first + "." + rest) == Cut(first, rest)
  {
    var s := first + "." + rest;
    assert s[|first|] == '.';
    var cut := SplitOnce(s);
    assert s == cut.first + "." + cut.rest;
    assert s[|cut.first|] == '.';
    assert forall i :: 0 <= i < |first| ==> s[i] == first[i] && first[i] in first;
    assert forall i :: 0 <= i < |cut.first| ==> s[i] == cut.first[i] && cut.first[i] in cut.first;
    assert |first| == |cut.first|;
    assert first == s[..|first|] && cut.first == s[..|cut.first|];
    assert rest == s[|first| + 1..] && cut.rest == s[|cut.first| + 1..];
  }

  /**
   * The label rules, after normalisation: a pattern that starts with the label `*` and has more labels needs
   * at least two of them, equal to the name's tail, and one non-empty label in front; any other pattern
   * must be the name.
   */
  predicate Covers(name: seq<string>, pattern: seq<string>)
    requires |name| >= 1 && |pattern| >= 1
  {
    if pattern[0] == "*" && |pattern| >= 2 then
      |pattern| >= 3 && name[0] != [] && name[1..] == pattern[1..]
    else
      name == pattern
  }

  lemma WildcardPatterns(pattern: string)
    ensures "*." <= pattern <==> Labels(pattern)[0] == "*" && |Labels(pattern)| >= 2
    ensures "*." <= pattern ==> Labels(pattern)[1..] == Labels(pattern[2..])
  {
    LabelsOfSplit(pattern);
    if "*." <= pattern {
      assert pattern == "*" + "." + pattern[2..];
      SplitOfConcat("*", pattern[2..]);
    }
  }

  /** The string code decides exactly the label rules. */
  lemma MatchesIffCovers(sni: string, pattern: string)
    ensures
      DnsNameMatches(sni, pattern) <==>
      Normal(sni) != [] && Normal(pattern) != [] && Covers(Labels(Normal(sni)), Labels(Normal(pattern)))
  {
    var s, p := Normal(sni), Normal(pattern);
    LabelsAreInjective(s, p);
    WildcardPatterns(p);
    LabelsOfSplit(s);
    if "*." <= p {
      LabelsOfSplit(p[2..]);
      if SplitOnce(s).Cut? {
        LabelsAreInjective(SplitOnce(s).rest, p[2..]);
        assert Labels(s)[1..] == Labels(SplitOnce(s).rest);
      } else {
        assert Labels(s)[1..] == [];
      }
    }
  }

  // ---- consequences --------------------------------------------------------

  lemma {:induction false} TrimKeepsAllButDots(s: string)
    ensures TrimDots(s) <= s
    ensures TrimDots(s) == [] || TrimDots(s)[|TrimDots(s)| - 1] != '.'
    ensures forall i :: |TrimDots(s)| <= i < |s| ==> s[i] == '.'
  {
    if s != [] && s[|s| - 1] == '.' {
      TrimKeepsAllButDots(s[..|s| - 1]);
    }
  }

  /** Neither trailing root dots nor ASCII case matter on either side. */
  lemma NormalIgnoresDotAndCase(s: string)
    ensures Normal(s + ".") == Normal(s)
    ensures Normal(Lower(s)) == Normal(s)
    ensures Normal(Normal(s)) == Normal(s)
  {
    assert (s + ".")[..|s|] == s;
    TrimCommutesWithLower(s);
    LowerTwice(TrimDots(s));
    LowerTwice(s);
    TrimKeepsAllButDots(s);
    TrimCommutesWithLower(TrimDots(s));
    assert TrimDots(TrimDots(s)) == TrimDots(s);
  }

  lemma LowerTwice(s: string)
    ensures Lower(Lower(s)) == Lower(s)
  {
  }

  lemma {:induction false} TrimCommutesWithLower(s: string)
    ensures TrimDots(Lower(s)) == Lower(TrimDots(s))
  {
    if s != [] {
      var init := s[..|s| - 1];
      assert Lower(s)[..|s| - 1] == Lower(init);
      if s[|s| - 1] == '.' {
        TrimCommutesWithLower(init);
      }
    }
  }

  /** A pattern that is `*.rest` after normalisation covers exactly the names with one non-empty label in front
      of `rest`. */
  lemma WildcardIsOneLabel(sni: string, pattern: string, rest: string)
    requires Normal(pattern) == "*." + rest && '.' in rest
    ensures
      DnsNameMatches(sni, pattern) <==>
      exists first :: first != [] && '.' !in first && Normal(sni) == first + "." + rest
  {
    assert Normal(pattern)[2..] == rest;
    var s := Normal(sni);
    forall first: string | first != [] && '.' !in first && s == first + "." + rest
      ensures DnsNameMatches(sni, pattern)
    {
      SplitOfConcat(first, rest);
    }
    if DnsNameMatches(sni, pattern) {
      var cut := SplitOnce(s);
      assert cut.first != [] && '.' !in cut.first && s == cut.first + "." + rest;
    }
  }

  /** A wildcard over a single label covers nothing at all, not even a name spelled like the pattern. */
  lemma BareWildcardCoversNothing(sni: string, pattern: string, tld: string)
    requires Normal(pattern) == "*." + tld && '.' !in tld
    ensures !DnsNameMatches(sni, pattern)
  {
    assert Normal(pattern)[2..] == tld;
  }

  /** A certificate covers a name if and only if the label rules hold for one of its names. */
  lemma MatchesAnyIffCovered(sni: string, sanDnsNames: seq<string>)
    ensures
      SniMatchesAny(sni, sanDnsNames) <==>
      && Normal(sni) != []
      && exists san :: san in sanDnsNames && Normal(san) != [] && Covers(Labels(Normal(sni)), Labels(Normal(san)))
  {
    forall san | san in sanDnsNames
      ensures
        DnsNameMatches(sni, san) <==>
        Normal(sni) != [] && Normal(san) != [] && Covers(Labels(Normal(sni)), Labels(Normal(san)))
    {
      MatchesIffCovers(sni, san);
    }
  }

  // ---- character by character ----------------------------------------------

  /** The same character, up to the case of an ASCII letter. */
  predicate SameLetter(a: char, b: char) {
    || a == b
    || ('A' <= a <= 'Z' && b as int == a as int + 32)
    || ('A' <= b <= 'Z' && a as int == b as int + 32)
  }

  predicate SameName(a: string, b: string) {
    |a| == |b| && forall i :: 0 <= i < |a| ==> SameLetter(a[i], b[i])
  }

  lemma LowerCharIff(a: char, b: char)
    ensures LowerChar(a) == LowerChar(b) <==> SameLetter(a, b)
  {
  }

  lemma LowerIff(a: string, b: string)
    ensures Lower(a) == Lower(b) <==> SameName(a, b)
  {
    if |a| == |b| {
      forall i | 0 <= i < |a|
        ensures Lower(a)[i] == Lower(b)[i] <==> SameLetter(a[i], b[i])
      {
        LowerCharIff(a[i], b[i]);
      }
    }
  }

  /** `core` is `s` without the dots at its end. */
  predicate Trimmed(s: string, core: string) {
    && core <= s
    && (core == [] || core[|core| - 1] != '.')
    && forall i :: |core| <= i < |s| ==> s[i] == '.'
  }

  lemma TrimIff(s: string, core: string)
    ensures Trimmed(s, core) <==> TrimDots(s) == core
  {
    var t := TrimDots(s);
    TrimKeepsAllButDots(s);
    if Trimmed(s, core) {
      assert core == s[..|core|] && t == s[..|t|];
      assert |core| == |t|;
    }
  }

  lemma LowerOfParts(s: string, k: nat)
    requires k <= |s|
    ensures Lower(s)[k..] == Lower(s[k..]) && Lower(s)[..k] == Lower(s[..k])
    ensures '.' in Lower(s) <==> '.' in s
  {
    if '.' in Lower(s) {
      var i :| 0 <= i < |s| && Lower(s)[i] == '.';
      assert s[i] == '.';
    }
    if '.' in s {
      var i :| 0 <= i < |s| && s[i] == '.';
      assert Lower(s)[i] == '.';
    }
  }

  /** The first label ends at `k` and is not empty, and what follows its dot is `rest` up to case. */
  predicate OneLabelBefore(name: string, rest: string, k: nat) {
    1 <= k < |name| && name[k] == '.' && '.' !in name[..k] && SameName(name[k + 1..], rest)
  }

  /**
   * The matcher, character by character: with the dots at the ends of both names taken off, a pattern that starts
   * with `*.` covers the names with one non-empty label in front of its other labels, of which there must be two;
   * any other pattern covers the names equal to it; case of ASCII letters aside, in both.
   */
  lemma MatchesByCharacters(sni: string, pattern: string, name: string, pat: string)
    requires Trimmed(sni, name) && Trimmed(pattern, pat)
    ensures
      DnsNameMatches(sni, pattern) <==>
      && name != [] && pat != []
      && if |pat| >= 2 && pat[0] == '*' && pat[1] == '.' then
           '.' in pat[2..] && exists k: nat :: OneLabelBefore(name, pat[2..], k)
         else
           SameName(name, pat)
  {
    TrimIff(sni, name);
    TrimIff(pattern, pat);
    var s, p := Lower(name), Lower(pat);
    assert s == Normal(sni) && p == Normal(pattern);
    LowerIff(name, pat);
    assert "*." <= p <==> |pat| >= 2 && p[0] == '*' && p[1] == '.';
    if "*." <= p {
      LowerOfParts(pat, 2);
      LowerOfParts(pat[2..], 0);
      WildcardByCharacters(name, pat[2..]);
    }
  }

  lemma WildcardByCharacters(name: string, rest: string)
    ensures
      (exists k: nat :: OneLabelBefore(name, rest, k)) <==>
      (SplitOnce(Lower(name)).Cut? && SplitOnce(Lower(name)).first != [] && SplitOnce(Lower(name)).rest == Lower(rest))
  {
    var s := Lower(name);
    if SplitOnce(s).Cut? && SplitOnce(s).first != [] && SplitOnce(s).rest == Lower(rest) {
      SplitIsLabel(name, rest);
      assert OneLabelBefore(name, rest, |SplitOnce(s).first|);
    }
    forall k: nat | OneLabelBefore(name, rest, k)
      ensures SplitOnce(s) == Cut(s[..k], Lower(rest)) && s[..k] != []
    {
      LabelSplits(name, rest, k);
    }
  }

  lemma SplitIsLabel(name: string, rest: string)
    requires
      var cut := SplitOnce(Lower(name));
      cut.Cut? && cut.first != [] && cut.rest == Lower(rest)
    ensures OneLabelBefore(name, rest, |SplitOnce(Lower(name)).first|)
  {
    var s := Lower(name);
    var cut := SplitOnce(s);
    var k := |cut.first|;
    assert s[k] == '.' && s[k + 1..] == cut.rest && s[..k] == cut.first;
    LowerOfParts(name, k + 1);
    LowerOfParts(name, k);
    LowerOfParts(name[..k], 0);
    LowerIff(name[k + 1..], rest);
  }

  lemma LabelSplits(name: string, rest: string, k: nat)
    requires OneLabelBefore(name, rest, k)
    ensures SplitOnce(Lower(name)) == Cut(Lower(name)[..k], Lower(rest))
  {
    var s := Lower(name);
    LowerOfParts(name, k + 1);
    LowerOfParts(name, k);
    LowerOfParts(name[..k], 0);
    LowerIff(name[k + 1..], rest);
    assert s[k] == '.';
    assert s == s[..k] + "." + s[k + 1..];
    SplitOfConcat(s[..k], s[k + 1..]);
  }

  /** The case of ASCII letters makes no difference on either side. */
  lemma CaseIsIgnored(a: string, b: string, p: string, q: string)
    requires SameName(a, b) && SameName(p, q)
    ensures DnsNameMatches(a, p) == DnsNameMatches(b, q)
  {
    LowerIff(a, b);
    LowerIff(p, q);
    TrimCommutesWithLower(a);
    TrimCommutesWithLower(b);
    TrimCommutesWithLower(p);
    TrimCommutesWithLower(q);
  }
}
