/**
 The description cell of a report row, which is also the hint the unit
 heuristics search: the register's description in bold, a line break, then
 its notice with every ';' turned into a line break.
 */
module Report {
  import opened Text
  import Interpreter

  const DescriptionOpen := "<strong>"
  const DescriptionClose := "</strong><br/>"

  function HintText(description: string, notice: string): (h: string)
    ensures DescriptionOpen + description + DescriptionClose <= h
  {
    DescriptionOpen + description + DescriptionClose + Join(Split(notice, ';'), Interpreter.LineBreak)
  }

  /** The interpretation shown for one report row, searched against the row's description cell. */
  function InterpretRow(register: string, description: string, notice: string, raw: string): (r: string)
    ensures ParseInt(raw).None? ==> raw <= r
  {
    Interpreter.Interpret(register, raw, HintText(description, notice))
  }

  /** A notice without ';' is copied into the description cell unchanged. */
  lemma PlainNotice(description: string, notice: string)
    requires ';' !in notice
    ensures HintText(description, notice) == DescriptionOpen + description + DescriptionClose + notice
  {
  }

  lemma JoinSplitStep(s: string, sep: char, lineBreak: string)
    requires sep in s
    ensures Join(Split(s, sep), lineBreak)
      == (s[..IndexOf(s, sep)] + lineBreak) + Join(Split(s[IndexOf(s, sep) + 1..], sep), lineBreak)
  {
    var i := IndexOf(s, sep);
    var rest := Split(s[i + 1..], sep);
    assert ([s[..i]] + rest)[1..] == rest;
  }

  /** An occurrence of `sub` at position `p` covers every position from `p` up to `p + |sub|`. */
  lemma CoveredPosition(s: string, sub: string, p: nat, i: nat)
    requires p <= |s| && sub <= s[p..]
    ensures p <= i < p + |sub| ==> s[i] in sub
  {
    if p <= i < p + |sub| {
      assert sub[i - p] == s[i];
    }
  }

  lemma OccursInSuffix(s: string, sub: string, p: nat, k: nat)
    requires k <= p <= |s| && sub <= s[p..]
    ensures Contains(s[k..], sub)
  {
    assert s[k..][p - k..p - k + |sub|] == sub;
    ContainsInfix(s[k..], sub, p - k);
  }

  lemma KeptBeforeSeparator(s: string, sep: char, lineBreak: string, sub: string, p: nat)
    requires sep in s && p + |sub| <= IndexOf(s, sep) && sub <= s[p..]
    ensures Contains(Join(Split(s, sep), lineBreak), sub)
  {
    var i := IndexOf(s, sep);
    var head := s[..i];
    JoinSplitStep(s, sep, lineBreak);
    assert head[p..p + |sub|] == sub;
    ContainsInfix(head, sub, p);
    ContainsConcat(head, lineBreak, sub);
    ContainsConcat(head + lineBreak, Join(Split(s[i + 1..], sep), lineBreak), sub);
  }

  lemma KeptAfterSeparator(s: string, sep: char, lineBreak: string, sub: string)
    requires sep in s && Contains(Join(Split(s[IndexOf(s, sep) + 1..], sep), lineBreak), sub)
    ensures Contains(Join(Split(s, sep), lineBreak), sub)
  {
    var i := IndexOf(s, sep);
    JoinSplitStep(s, sep, lineBreak);
    ContainsConcat(s[..i] + lineBreak, Join(Split(s[i + 1..], sep), lineBreak), sub);
  }

  /**
   Turning the separators of a text into line breaks keeps every substring
   that does not itself contain the separator.
   */
  lemma {:induction false} SplitJoinKeeps(s: string, sep: char, lineBreak: string, sub: string)
    requires sep !in sub && Contains(s, sub)
    ensures Contains(Join(Split(s, sep), lineBreak), sub)
    decreases |s|
  {
    if sep in s {
      var i := IndexOf(s, sep);
      ContainsAt(s, sub);
      var p :| 0 <= p <= |s| && sub <= s[p..];
      CoveredPosition(s, sub, p, i);
      if p <= i {
        KeptBeforeSeparator(s, sep, lineBreak, sub, p);
      } else {
        OccursInSuffix(s, sub, p, i + 1);
        SplitJoinKeeps(s[i + 1..], sep, lineBreak, sub);
        KeptAfterSeparator(s, sep, lineBreak, sub);
      }
    }
  }

  /**
   A marker without ';' that the description or the notice contains is also
   found in the description cell, so the heuristics see the units the
   register list documents.
   */
  lemma MarkerSurvives(description: string, notice: string, marker: string)
    requires ';' !in marker
    requires Contains(description, marker) || Contains(notice, marker)
    ensures Contains(HintText(description, notice), marker)
  {
    var body := Join(Split(notice, ';'), Interpreter.LineBreak);
    if Contains(description, marker) {
      ContainsConcat(DescriptionOpen, description, marker);
      ContainsConcat(DescriptionOpen + description, DescriptionClose, marker);
    } else {
      SplitJoinKeeps(notice, ';', Interpreter.LineBreak, marker);
    }
    ContainsConcat(DescriptionOpen + description + DescriptionClose, body, marker);
  }
}
