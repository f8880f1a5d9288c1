/**
  Matching a host name against a certificate's name pattern, by the wildcard
  rule of section 6.4.3 of RFC 6125.
*/
module HostCheck {
  /** A C string: its characters before the terminator. */
  type CString = s: string | forall i | 0 <= i < |s| :: s[i] != 0 as char

  /** A possibly null `const char *`. */
  datatype Pointer = Null | Text(text: CString)

  function ToUpper(c: char): (r: char) {
    if 'a' <= c <= 'z' then (c as int - 32) as char else c
  }

  function At(s: CString, i: nat): (r: char)
    requires i <= |s|
  {
    if i < |s| then s[i] else 0 as char
  }

  /** The same character, or the same ASCII letter in either case. */
  predicate SameLetter(a: char, b: char) {
    || a == b
    || ('a' <= a <= 'z' && a as int == b as int + 32)
    || ('a' <= b <= 'z' && b as int == a as int + 32)
  }

  /** Equal but for the case of ASCII letters. */
  predicate EqualIgnoreCase(a: string, b: string) {
    |a| == |b| && forall i | 0 <= i < |a| :: SameLetter(a[i], b[i])
  }

  lemma UpperExact(a: char, b: char)
    ensures ToUpper(a) == ToUpper(b) <==> SameLetter(a, b)
  {
  }

  /** The same, as the code compares: position by position in upper case. */
  predicate SameUpper(a: string, b: string) {
    |a| == |b| && forall i | 0 <= i < |a| :: ToUpper(a[i]) == ToUpper(b[i])
  }

  lemma EqualExact(a: string, b: string)
    ensures EqualIgnoreCase(a, b) <==> SameUpper(a, b)
  {
    if |a| == |b| {
      forall i | 0 <= i < |a|
        ensures SameLetter(a[i], b[i]) <==> ToUpper(a[i]) == ToUpper(b[i])
      {
        UpperExact(a[i], b[i]);
      }
    }
  }

  function Take(s: string, n: nat): (r: string) {
    if n < |s| then s[..n] else s
  }

  method RawEqual(first: CString, second: CString) returns (r: bool)
    ensures r <==> EqualIgnoreCase(first, second)
  {
    var i := 0;
    while i < |first| && i < |second|
      invariant i <= |first| && i <= |second|
      invariant forall k | 0 <= k < i :: ToUpper(first[k]) == ToUpper(second[k])
    {
      if ToUpper(first[i]) != ToUpper(second[i]) { break; }
      i := i + 1;
    }
    r := ToUpper(At(first, i)) == ToUpper(At(second, i));
    EqualExact(first, second);
  }

  method RawNEqual(first: CString, second: CString, max: nat) returns (r: bool)
    ensures r <==> EqualIgnoreCase(Take(first, max), Take(second, max))
  {
    var i := 0;
    while i < |first| && i < |second| && i < max
      invariant i <= |first| && i <= |second| && i <= max
      invariant forall k | 0 <= k < i :: ToUpper(first[k]) == ToUpper(second[k])
    {
      if ToUpper(first[i]) != ToUpper(second[i]) { break; }
      i := i + 1;
    }
    EqualExact(Take(first, max), Take(second, max));
    if i == max { return true; }
    r := ToUpper(At(first, i)) == ToUpper(At(second, i));
  }

  /** `strchr` as an index, negative when the character does not occur. */
  function IndexOf(s: string, c: char): (r: int)
    ensures r < 0 ==> c !in s
    ensures r >= 0 ==> r < |s| && s[r] == c && c !in s[..r]
  {
    if s == "" then -1
    else if s[0] == c then 0
    else
      var i := IndexOf(s[1..], c);
      if i < 0 then -1 else
        assert s[..i + 1] == [s[0]] + s[1..][..i];
        i + 1
  }

  /** First occurrences are unique. */
  lemma {:induction false} FirstIsUnique(s: string, c: char, k: nat)
    requires k < |s| && s[k] == c && c !in s[..k]
    ensures IndexOf(s, c) == k
  {
    if k > 0 {
      assert s[0] in s[..k];
      assert s[1..][..k - 1] == s[..k][1..];
      FirstIsUnique(s[1..], c, k - 1);
    }
  }

  // ----- The rule

  /** A wildcard counts only in the first of at least three labels, and not in an IDNA label. */
  predicate Eligible(p: string) {
    var star, dot := IndexOf(p, '*'), IndexOf(p, '.');
    && star >= 0 && dot >= 0 && star < dot
    && '.' in p[dot + 1..]
    && !EqualIgnoreCase(Take(p, 4), "xn--")
  }

  /** The pattern with the character at `star` replaced by `w`. */
  function Substitute(p: string, star: nat, w: string): (r: string)
    requires star < |p|
  {
    p[..star] + w + p[star + 1..]
  }

  /** A replacement for the wildcard: some non-empty part of a label. */
  predicate LabelPart(w: string) {
    w != "" && '.' !in w
  }

  ghost predicate WildcardMatch(h: string, p: string) {
    && Eligible(p)
    && exists w: string :: LabelPart(w) && EqualIgnoreCase(h, Substitute(p, IndexOf(p, '*'), w))
  }

  ghost predicate Matches(h: string, p: string) {
    EqualIgnoreCase(h, p) || WildcardMatch(h, p)
  }

  lemma UpperDot(a: char, b: char)
    requires ToUpper(a) == ToUpper(b)
    ensures a == '.' <==> b == '.'
  {
  }

  /**
    What the code compares when the wildcard at `star` is enabled and the first
    labels of the pattern and the host end at `dot` and `cut`.
  */
  predicate LabelsAgree(h: string, p: string, star: nat, dot: nat, cut: nat)
    requires star < dot < |p| && cut < |h|
  {
    && EqualIgnoreCase(p[dot..], h[cut..])
    && cut >= dot
    && EqualIgnoreCase(p[..star], h[..star])
    && EqualIgnoreCase(p[star + 1..dot], h[cut - (dot - (star + 1))..cut])
  }

  lemma EqualSymmetric(a: string, b: string)
    ensures EqualIgnoreCase(a, b) <==> EqualIgnoreCase(b, a)
    ensures a == b ==> EqualIgnoreCase(a, b)
  {
    EqualExact(a, b);
    EqualExact(b, a);
  }

  lemma EqualConcat(a: string, b: string, c: string, d: string)
    requires EqualIgnoreCase(a, b) && EqualIgnoreCase(c, d)
    ensures EqualIgnoreCase(a + c, b + d)
  {
    EqualExact(a, b);
    EqualExact(c, d);
    EqualExact(a + c, b + d);
  }

  lemma EqualSlice(a: string, b: string, i: nat, j: nat)
    requires EqualIgnoreCase(a, b) && i <= j <= |a|
    ensures EqualIgnoreCase(b[i..j], a[i..j])
    ensures EqualIgnoreCase(b[..i], a[..i]) && EqualIgnoreCase(b[j..], a[j..])
  {
    EqualExact(a, b);
    EqualExact(b[i..j], a[i..j]);
    EqualExact(b[..i], a[..i]);
    EqualExact(b[j..], a[j..]);
  }

  lemma PartsMatch(pre: string, mid: string, post: string, pre': string, w: string, mid': string, post': string)
    requires EqualIgnoreCase(pre, pre') && EqualIgnoreCase(mid, mid') && EqualIgnoreCase(post, post')
    ensures EqualIgnoreCase(pre' + w + mid' + post', pre + w + (mid + post))
  {
    EqualSymmetric(pre, pre');
    EqualSymmetric(mid, mid');
    EqualSymmetric(post, post');
    EqualSymmetric(w, w);
    EqualConcat(pre', pre, w, w);
    EqualConcat(pre' + w, pre + w, mid', mid);
    EqualConcat(pre' + w + mid', pre + w + mid, post', post);
    assert pre + w + mid + post == pre + w + (mid + post);
  }

  lemma Reassemble(h: string, i: nat, j: nat, k: nat)
    requires i <= j <= k <= |h|
    ensures h == h[..i] + h[i..j] + h[j..k] + h[k..]
  {
  }

  lemma SliceMisses(h: string, c: char, i: nat, j: nat, k: nat)
    requires i <= j <= k <= |h| && c !in h[..k]
    ensures c !in h[i..j]
  {
    assert h[i..j] == h[..k][i..j];
  }

  lemma AgreementGivesWitness(h: string, p: string, star: nat, dot: nat, cut: nat) returns (w: string)
    requires star < dot < |p| && cut < |h| && '.' !in h[..cut]
    requires LabelsAgree(h, p, star, dot, cut)
    ensures LabelPart(w) && EqualIgnoreCase(h, Substitute(p, star, w))
  {
    var mid := cut - (dot - (star + 1));
    w := h[star..mid];
    PartsMatch(p[..star], p[star + 1..dot], p[dot..], h[..star], w, h[mid..cut], h[cut..]);
    Reassemble(h, star, mid, cut);
    assert p[star + 1..] == p[star + 1..dot] + p[dot..];
    SliceMisses(h, '.', star, mid, cut);
  }

  /** Neither the pattern's first label nor what replaces its wildcard has a dot; the label ends with one. */
  lemma SubstituteDots(p: string, star: nat, dot: nat, w: string, q: string, i: nat)
    requires star < dot < |p| && p[dot] == '.' && '.' !in p[..dot] && LabelPart(w) && q == Substitute(p, star, w)
    requires i <= dot - 1 + |w|
    ensures i < |q| && (q[i] == '.' <==> i == dot - 1 + |w|)
  {
    if i < star {
      assert q[i] == p[..dot][i];
    } else if star + |w| <= i < dot - 1 + |w| {
      assert q[i] == p[..dot][i - |w| + 1];
    }
  }

  lemma DotsAgree(h: string, q: string, i: nat)
    requires EqualIgnoreCase(h, q) && i < |q|
    ensures i < |h| && (h[i] == '.' <==> q[i] == '.')
  {
    EqualExact(h, q);
    UpperDot(h[i], q[i]);
  }

  /** The host's first label is the pattern's with the wildcard replaced. */
  lemma WitnessCut(h: string, p: string, star: nat, dot: nat, w: string)
    requires star < dot < |p| && p[dot] == '.' && '.' !in p[..dot]
    requires LabelPart(w) && EqualIgnoreCase(h, Substitute(p, star, w))
    ensures dot - 1 + |w| < |h| && IndexOf(h, '.') == dot - 1 + |w|
  {
    var q, cut := Substitute(p, star, w), dot - 1 + |w|;
    forall i | 0 <= i <= cut
      ensures i < |h| && (h[i] == '.' <==> i == cut)
    {
      SubstituteDots(p, star, dot, w, q, i);
      DotsAgree(h, q, i);
    }
    FirstIsUnique(h, '.', cut);
  }

  lemma SubstituteParts(p: string, star: nat, dot: nat, w: string)
    requires star < dot < |p|
    ensures var q := Substitute(p, star, w);
            && q[..star] == p[..star]
            && q[star + |w|..dot - 1 + |w|] == p[star + 1..dot]
            && q[dot - 1 + |w|..] == p[dot..]
  {
  }

  lemma WitnessGivesAgreement(h: string, p: string, star: nat, dot: nat, cut: nat, w: string)
    requires star < dot < |p| && w != "" && cut == dot - 1 + |w| < |h|
    requires EqualIgnoreCase(h, Substitute(p, star, w))
    ensures LabelsAgree(h, p, star, dot, cut)
  {
    SubstituteParts(p, star, dot, w);
    PartsAgree(h, p, Substitute(p, star, w), star, dot, star + |w|, cut);
  }

  lemma PartsAgree(h: string, p: string, q: string, star: nat, dot: nat, mid: nat, cut: nat)
    requires star < dot < |p| && dot <= cut < |h| && mid == cut - (dot - (star + 1)) && EqualIgnoreCase(h, q) && cut < |q|
    requires q[..star] == p[..star] && q[mid..cut] == p[star + 1..dot] && q[cut..] == p[dot..]
    ensures LabelsAgree(h, p, star, dot, cut)
  {
    EqualExact(h, q);
    EqualSlice(h, q, star, cut);
    EqualSlice(h, q, mid, cut);
  }

  /** The label-by-label comparison decides the existential rule. */
  lemma AgreementExact(h: string, p: string)
    requires Eligible(p)
    ensures var cut := IndexOf(h, '.');
            WildcardMatch(h, p) <==> cut >= 0 && LabelsAgree(h, p, IndexOf(p, '*'), IndexOf(p, '.'), cut)
  {
    var star, dot, cut := IndexOf(p, '*'), IndexOf(p, '.'), IndexOf(h, '.');
    if cut >= 0 && LabelsAgree(h, p, star, dot, cut) {
      var w := AgreementGivesWitness(h, p, star, dot, cut);
    }
    if w: string :| LabelPart(w) && EqualIgnoreCase(h, Substitute(p, star, w)) {
      WitnessCut(h, p, star, dot, w);
      WitnessGivesAgreement(h, p, star, dot, cut, w);
    }
  }

  /** The wildcard counts exactly in a first label of a pattern with two dots that does not start like "xn--". */
  lemma EligibleExact(p: string)
    ensures Eligible(p) <==>
              && (exists i, j, k | 0 <= i < j < k < |p| :: p[i] == '*' && p[j] == '.' && p[k] == '.' && '.' !in p[..i])
              && !(|p| >= 4 && p[0] in {'x', 'X'} && p[1] in {'n', 'N'} && p[2] == '-' && p[3] == '-')
  {
    NotIdna(p);
    var star, dot := IndexOf(p, '*'), IndexOf(p, '.');
    if Eligible(p) {
      var k :| 0 <= k < |p[dot + 1..]| && p[dot + 1..][k] == '.';
      assert '.' !in p[..star] by { assert p[..star] == p[..dot][..star]; }
      assert p[star] == '*' && p[dot] == '.' && p[dot + 1 + k] == '.';
    }
    if i, j, k :| 0 <= i < j < k < |p| && p[i] == '*' && p[j] == '.' && p[k] == '.' && '.' !in p[..i] {
      FirstDots(p, i, j, k, star, dot);
    }
  }

  lemma FirstDots(p: string, i: nat, j: nat, k: nat, star: int, dot: int)
    requires i < j < k < |p| && p[i] == '*' && p[j] == '.' && p[k] == '.' && '.' !in p[..i]
    requires star == IndexOf(p, '*') && dot == IndexOf(p, '.')
    ensures 0 <= star < dot && '.' in p[dot + 1..]
  {
    assert p[i] in p && p[j] in p;
    assert p[dot + 1..][k - dot - 1] == p[k];
  }

  lemma NotIdna(p: string)
    ensures EqualIgnoreCase(Take(p, 4), "xn--") <==>
              |p| >= 4 && p[0] in {'x', 'X'} && p[1] in {'n', 'N'} && p[2] == '-' && p[3] == '-'
  {
    var t := Take(p, 4);
    if |p| >= 4 { assert t == [p[0], p[1], p[2], p[3]]; }
  }

  lemma TakeSlice(s: string, i: nat, n: nat)
    requires i + n <= |s|
    ensures Take(s[i..], n) == s[i..i + n]
  {
  }

  method MatchLabels(hostname: CString, pattern: CString, star: nat, dot: nat, cut: nat) returns (r: bool)
    requires star < dot < |pattern| && cut < |hostname|
    ensures r <==> LabelsAgree(hostname, pattern, star, dot, cut)
  {
    var rest := RawEqual(pattern[dot..], hostname[cut..]);
    if !rest || cut < dot { return false; }
    var suffixLen := dot - (star + 1);
    var before := RawNEqual(pattern, hostname, star);
    var after := RawNEqual(pattern[star + 1..], hostname[cut - suffixLen..], suffixLen);
    TakeSlice(pattern, star + 1, suffixLen);
    TakeSlice(hostname, cut - suffixLen, suffixLen);
    r := before && after;
  }

  method HostMatch(hostname: CString, pattern: CString) returns (r: bool)
    ensures r <==> if Eligible(pattern) then WildcardMatch(hostname, pattern)
                   else EqualIgnoreCase(pattern, hostname)
  {
    var star := IndexOf(pattern, '*');
    if star < 0 {
      r := RawEqual(pattern, hostname);
      return;
    }
    var dot := IndexOf(pattern, '.');
    var idna := RawNEqual(pattern, "xn--", 4);
    var enabled := !(dot < 0 || IndexOf(pattern[dot + 1..], '.') < 0 || star > dot || idna);
    if !enabled {
      r := RawEqual(pattern, hostname);
      return;
    }
    AgreementExact(hostname, pattern);
    var cut := IndexOf(hostname, '.');
    if cut < 0 { return false; }
    r := MatchLabels(hostname, pattern, star, dot, cut);
  }

  /** The check accepts exactly the pairs the rule matches; null and empty names never match. */
  method CertHostCheck(matchPattern: Pointer, hostname: Pointer) returns (r: bool)
    ensures r <==> && matchPattern.Text? && hostname.Text?
                   && matchPattern.text != "" && hostname.text != ""
                   && Matches(hostname.text, matchPattern.text)
  {
    if matchPattern.Null? || hostname.Null? { return false; }
    if matchPattern.text == "" || hostname.text == "" { return false; }
    var same := RawEqual(hostname.text, matchPattern.text);
    if same { return true; }
    EqualSymmetric(hostname.text, matchPattern.text);
    r := HostMatch(hostname.text, matchPattern.text);
  }
}
