/** The host name check that guards certificate issuing, against a grammar of dot-separated labels. */
module Hostname {

  predicate Letter(c: char) {
    'a' <= c <= 'z' || 'A' <= c <= 'Z'
  }

  predicate Digit(c: char) {
    '0' <= c <= '9'
  }

  predicate LabelChar(c: char) {
    Letter(c) || Digit(c) || c == '-'
  }

  /** The parts between dots; the last part of the empty string, and after a final dot, is empty. */
  function Labels(s: string): (labels: seq<string>)
    ensures |labels| >= 1
  {
    if s == "" then [""]
    else
      var init, c := Labels(s[..|s| - 1]), s[|s| - 1];
      if c == '.' then init + [""] else init[|init| - 1 := init[|init| - 1] + [c]]
  }

  function Join(labels: seq<string>): string {
    if |labels| == 0 then ""
    else if |labels| == 1 then labels[0]
    else Join(labels[..|labels| - 1]) + "." + labels[|labels| - 1]
  }

  /** Labels is the split at the dots: joining gives the string back and no label has a dot. */
  lemma {:induction false} LabelsSplit(s: string)
    ensures Join(Labels(s)) == s
    ensures forall i :: 0 <= i < |Labels(s)| ==> '.' !in Labels(s)[i]
  {
    if s != "" {
      var init, c := s[..|s| - 1], s[|s| - 1];
      LabelsSplit(init);
      var before, labels := Labels(init), Labels(s);
      var n := |before|;
      if c == '.' {
        assert labels[..n] == before;
      } else {
        assert labels[..n - 1] == before[..n - 1];
      }
      assert s == init + [c];
    }
  }

  /** How long the scanner lets the label at an index be: it counts the dot in front of all but the first. */
  function MaxLength(index: nat): nat {
    if index == 0 then 63 else 62
  }

  /** A label so far: allowed characters, no leading hyphen, not too long. */
  predicate Prefix(l: string, max: nat) {
    && |l| <= max
    && (forall i :: 0 <= i < |l| ==> LabelChar(l[i]))
    && (l != "" ==> l[0] != '-')
  }

  predicate Label(l: string, max: nat) {
    Prefix(l, max) && l != "" && l[|l| - 1] != '-'
  }

  predicate HostnameGrammar(s: string) {
    && 1 <= |s| <= 253
    && Letter(s[0])
    && forall i :: 0 <= i < |Labels(s)| ==> Label(Labels(s)[i], MaxLength(i))
  }

  // ---- the scanner's local conditions ----

  /** The position of the last dot before p, 0 when there is none: the scanner's lp. */
  function LastDot(s: string, p: nat): (lp: nat)
    requires p <= |s|
    ensures lp <= p
  {
    if p == 0 then 0 else if s[p - 1] == '.' then p - 1 else LastDot(s, p - 1)
  }

  /** What the loop checks at position p. */
  predicate Local(s: string, p: nat)
    requires p < |s|
  {
    && (LabelChar(s[p]) || s[p] == '.')
    && (p > 0 && s[p - 1] == '.' ==> s[p] != '.' && s[p] != '-')
    && (s[p] != '.' ==> p - LastDot(s, p) < 63)
    && (p > 0 && s[p] == '.' ==> s[p - 1] != '-')
  }

  predicate Scanned(s: string, n: nat)
    requires n <= |s|
  {
    forall p :: 0 <= p < n ==> Local(s, p)
  }

  lemma {:induction false} LastDotOfPrefix(s: string, n: nat, p: nat)
    requires p <= n <= |s|
    ensures LastDot(s[..n], p) == LastDot(s, p)
  {
    if p > 0 {
      LastDotOfPrefix(s, n, p - 1);
    }
  }

  /** Length and last character of the current label, read off the string: it follows the last dot. */
  predicate CurrentLabelAt(s: string, k: nat, l: string) {
    && (if k == 0 then |l| == |s| && LastDot(s, |s|) == 0 else |l| < |s| && LastDot(s, |s|) == |s| - |l| - 1)
    && (l == "" ==> s == "" || s[|s| - 1] == '.')
    && (l != "" ==> s != "" && l[|l| - 1] == s[|s| - 1])
  }

  lemma SnocCurrent(s: string, k: nat, l: string)
    requires s != "" && CurrentLabelAt(s[..|s| - 1], k, l)
    ensures var c := s[|s| - 1];
            if c == '.' then CurrentLabelAt(s, k + 1, "") else CurrentLabelAt(s, k, l + [c])
  {
    LastDotOfPrefix(s, |s| - 1, |s| - 1);
  }

  lemma {:induction false} CurrentLabel(s: string)
    ensures var k := |Labels(s)| - 1; CurrentLabelAt(s, k, Labels(s)[k])
  {
    if s != "" {
      var before := Labels(s[..|s| - 1]);
      CurrentLabel(s[..|s| - 1]);
      SnocCurrent(s, |before| - 1, before[|before| - 1]);
    }
  }

  predicate LabelsSoFar(s: string) {
    var labels := Labels(s);
    var last := |labels| - 1;
    && (forall i :: 0 <= i < last ==> Label(labels[i], MaxLength(i)))
    && Prefix(labels[last], MaxLength(last))
  }

  /** Length and last character of the current label, read off the string. */
  lemma CurrentLabelEnds(s: string)
    requires LabelsSoFar(s)
    ensures var k := |Labels(s)| - 1;
            var l := Labels(s)[k];
            && |l| == (if k == 0 then |s| - LastDot(s, |s|) else |s| - LastDot(s, |s|) - 1)
            && (l == "" <==> s == "" || s[|s| - 1] == '.')
            && (l != "" ==> l[|l| - 1] == s[|s| - 1])
  {
    CurrentLabel(s);
    var k := |Labels(s)| - 1;
    var l := Labels(s)[k];
    assert l != "" ==> LabelChar(l[|l| - 1]);
  }

  lemma DotMeansLabels(s: string)
    requires s != "" && s[|s| - 1] == '.' && Letter(s[0]) && LabelsSoFar(s[..|s| - 1])
    ensures LabelsSoFar(s) <==> Local(s, |s| - 1)
  {
    var n := |s| - 1;
    var before := Labels(s[..n]);
    var k := |before| - 1;
    CurrentLabelEnds(s[..n]);
    assert Labels(s) == before + [""];
    assert LabelsSoFar(s) ==> Label(Labels(s)[k], MaxLength(k));
    assert LabelsSoFar(s) <==> Label(before[k], MaxLength(k));
  }

  lemma CharMeansLabels(s: string)
    requires s != "" && s[|s| - 1] != '.' && Letter(s[0]) && LabelsSoFar(s[..|s| - 1])
    ensures LabelsSoFar(s) <==> Local(s, |s| - 1)
  {
    var n := |s| - 1;
    var before, c := Labels(s[..n]), s[n];
    var k := |before| - 1;
    CurrentLabelEnds(s[..n]);
    LastDotOfPrefix(s, n, n);
    var current := before[k];
    assert Labels(s) == before[k := current + [c]];
    assert LabelsSoFar(s) <==> Prefix(current + [c], MaxLength(k));
    assert |current| + 1 <= MaxLength(k) <==> n - LastDot(s, n) < 63;
    SnocPrefix(current, c, MaxLength(k));
  }

  lemma SnocPrefix(l: string, c: char, max: nat)
    requires Prefix(l, max)
    ensures Prefix(l + [c], max) <==> |l| + 1 <= max && LabelChar(c) && (l == "" ==> c != '-')
  {
    var l' := l + [c];
    assert l'[|l|] == c;
    if l != "" { assert l'[0] == l[0]; }
  }

  /** Labels that are not well formed so far never become so. */
  lemma LabelsOfPrefix(s: string)
    requires s != "" && LabelsSoFar(s)
    ensures LabelsSoFar(s[..|s| - 1])
  {
    var before, labels := Labels(s[..|s| - 1]), Labels(s);
    var k := |before| - 1;
    assert forall i :: 0 <= i < k ==> labels[i] == before[i];
    if s[|s| - 1] == '.' {
      assert labels[k] == before[k];
    } else {
      assert before[k] == labels[k][..|labels[k]| - 1];
    }
  }

  lemma {:induction false} ScannedMeansLabels(s: string, n: nat)
    requires s != "" && Letter(s[0]) && n <= |s|
    ensures LabelsSoFar(s[..n]) <==> Scanned(s, n)
  {
    if n > 0 {
      var t := s[..n];
      assert t[..n - 1] == s[..n - 1];
      ScannedMeansLabels(s, n - 1);
      LastDotOfPrefix(s, n, n - 1);
      assert Local(t, n - 1) <==> Local(s, n - 1);
      assert Scanned(s, n) <==> Scanned(s, n - 1) && Local(s, n - 1);
      if LabelsSoFar(t) {
        LabelsOfPrefix(t);
      }
      if LabelsSoFar(t[..n - 1]) {
        if t[n - 1] == '.' {
          DotMeansLabels(t);
        } else {
          CharMeansLabels(t);
        }
      }
    }
  }

  /** The scanner accepts exactly the strings of the grammar. */
  method IsHostname(str: string) returns (ok: bool)
    ensures ok <==> HostnameGrammar(str)
  {
    if |str| == 0 { return false; }
    if |str| > 253 { return false; }
    var first, final := str[0], str[|str| - 1];
    if !Letter(first) { return false; }
    ScannedMeansLabels(str, |str|);
    assert str[..|str|] == str;
    FinalLabel(str);
    if !Letter(final) && !Digit(final) { return false; }
    var dot, l, lp := false, '\0', 0;
    for p := 0 to |str|
      invariant Scanned(str, p)
      invariant dot == (p > 0 && str[p - 1] == '.')
      invariant l == if p == 0 then '\0' else str[p - 1]
      invariant lp == LastDot(str, p)
    {
      var r := str[p];
      if !Letter(r) && !Digit(r) && r != '-' && r != '.' { assert !Local(str, p); return false; }
      if dot && (r == '.' || r == '-') { assert !Local(str, p); return false; }
      dot := r == '.';
      if !dot && p - lp >= 63 { assert !Local(str, p); return false; }
      if dot {
        lp := p;
        if l == '-' { assert !Local(str, p); return false; }
      }
      l := r;
    }
    ok := true;
  }

  /** Well-formed so far and ending in a letter or digit is the grammar. */
  lemma FinalLabel(s: string)
    requires 1 <= |s| <= 253 && Letter(s[0])
    ensures HostnameGrammar(s) <==> LabelsSoFar(s) && (Letter(s[|s| - 1]) || Digit(s[|s| - 1]))
  {
    CurrentLabel(s);
    var labels := Labels(s);
    var last := labels[|labels| - 1];
    if last == "" {
      assert s[|s| - 1] == '.';
    } else {
      assert last[|last| - 1] == s[|s| - 1];
    }
    if LabelsSoFar(s) && last != "" {
      assert LabelChar(last[|last| - 1]);
    }
  }

  /** An accepted name meets the length limits of section 2.3.4 of RFC 1035 and the label syntax of section 2.1 of RFC 1123. */
  lemma GrammarMeetsStandards(s: string)
    requires HostnameGrammar(s)
    ensures |s| <= 255
    ensures forall i :: 0 <= i < |Labels(s)| ==>
              var l := Labels(s)[i];
              && 1 <= |l| <= 63
              && (forall k :: 0 <= k < |l| ==> LabelChar(l[k]))
              && l[0] != '-' && l[|l| - 1] != '-'
  {
    forall i | 0 <= i < |Labels(s)|
      ensures var l := Labels(s)[i];
              && 1 <= |l| <= 63
              && (forall k :: 0 <= k < |l| ==> LabelChar(l[k]))
              && l[0] != '-' && l[|l| - 1] != '-'
    {
      assert Label(Labels(s)[i], MaxLength(i));
    }
  }

  predicate NoFullLaterLabel(s: string) {
    forall i :: 1 <= i < |Labels(s)| ==> |Labels(s)[i]| != 63
  }

  /** The limit the comment in the scanner states, 63 for every label, is kept except for later labels of exactly 63. */
  lemma RejectsOnlyFullLaterLabels(s: string)
    requires 1 <= |s| <= 253 && Letter(s[0])
    requires forall i :: 0 <= i < |Labels(s)| ==> Label(Labels(s)[i], 63)
    ensures HostnameGrammar(s) <==> NoFullLaterLabel(s)
  {
    if HostnameGrammar(s) {
      forall i | 1 <= i < |Labels(s)| ensures |Labels(s)[i]| != 63 {
        assert Label(Labels(s)[i], MaxLength(i));
      }
    }
    if NoFullLaterLabel(s) {
      forall i | 0 <= i < |Labels(s)| ensures Label(Labels(s)[i], MaxLength(i)) {
        assert Label(Labels(s)[i], 63);
      }
    }
  }
}
