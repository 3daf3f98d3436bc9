/** The text the page derives from a project: the short summary on a card
    (`gerarResumoCurto`), the modal description (`obterDescricaoModal`)
    and the modal's technology line. */
module ProjectText {

  import opened Seqs
  import opened Text
  import opened ProjectData

  /** Longest summary text before the ellipsis is added. */
  const SummaryLimit := 140
  /** A first sentence shorter than this is considered too short to stand alone. */
  const ShortSentence := 30
  const Ellipsis := "..."
  const NoDescription := "Sem descrição."
  const NoTechnologies := "—"

  predicate IsTerminator(c: char)
  {
    c == '.' || c == '!' || c == '?'
  }

  /** Where `split(/(?<=[.!?])\s+/)` cuts: a sentence terminator right
      before a whitespace character. */
  predicate BoundaryAt(s: string, i: int)
  {
    0 < i < |s| && IsTerminator(s[i - 1]) && IsSpace(s[i])
  }

  /** The first cut at or after `from`, or `|s|` when there is none. */
  function FirstBoundary(s: string, from: nat): (i: nat)
    requires 1 <= from
    ensures i <= |s| && (from <= |s| ==> from <= i)
    ensures i == |s| || BoundaryAt(s, i)
    ensures forall j :: from <= j < i ==> !BoundaryAt(s, j)
    decreases |s| - from
  {
    if from >= |s| then |s|
    else if BoundaryAt(s, from) then from
    else FirstBoundary(s, from + 1)
  }

  /** The first piece of `s.split(/(?<=[.!?])\s+/)`: the text up to the
      first terminator that whitespace follows, or all of `s`. */
  function FirstSentence(s: string): (r: string)
    ensures |r| <= |s| && r == s[..|r|]
    ensures |r| == |s| || BoundaryAt(s, |r|)
    ensures forall j :: 0 < j < |r| ==> !BoundaryAt(s, j)
    ensures s != [] ==> r != []
  {
    s[..FirstBoundary(s, 1)]
  }

  /** The text matched by `\s+\S*$`: a whitespace run, then only
      non-whitespace to the end. */
  predicate SpaceRunThenWord(t: string)
  {
    && |t| > 0 && IsSpace(t[0])
    && forall i, j :: 0 <= i < j < |t| && !IsSpace(t[i]) ==> !IsSpace(t[j])
  }

  /** Cuts `s` at the start of its last whitespace run. */
  function CutLastRun(s: string): (r: string)
    requires HasSpace(s)
    ensures |r| < |s| && r == s[..|r|]
    ensures SpaceRunThenWord(s[|r|..])
    ensures r == [] || !IsSpace(r[|r| - 1])
    decreases |s|
  {
    if IsSpace(s[|s| - 1]) then TrimEndSpec(s); TrimEnd(s)
    else
      var i :| 0 <= i < |s| && IsSpace(s[i]);
      assert IsSpace(s[..|s| - 1][i]);
      var r := CutLastRun(s[..|s| - 1]);
      assert s[|r|..] == s[..|s| - 1][|r|..] + [s[|s| - 1]];
      SpaceRunThenWordSnoc(s[..|s| - 1][|r|..], s[|s| - 1]);
      r
  }

  /** A non-space character may follow the word after a whitespace run. */
  lemma SpaceRunThenWordSnoc(t: string, c: char)
    requires SpaceRunThenWord(t) && !IsSpace(c)
    ensures SpaceRunThenWord(t + [c])
  {
    var u := t + [c];
    forall i, j | 0 <= i < j < |u| && !IsSpace(u[i])
      ensures !IsSpace(u[j])
    {
      if j < |t| {
        assert u[i] == t[i] && u[j] == t[j];
      }
    }
  }

  /** `s.replace(/\s+\S*$/, "")`: drops the last whitespace run and the
      partial word after it; text without whitespace is unchanged. */
  function DropTrailingWord(s: string): (r: string)
    ensures |r| <= |s| && r == s[..|r|]
    ensures !HasSpace(s) ==> r == s
    ensures HasSpace(s) ==> |r| < |s| && SpaceRunThenWord(s[|r|..]) && (r == [] || !IsSpace(r[|r| - 1]))
  {
    if HasSpace(s) then CutLastRun(s) else s
  }

  /** The cut is where the regular expression first matches: no earlier
      position starts a `\s+\S*$` match. */
  lemma DropTrailingWordLeftmost(s: string, q: int)
    requires HasSpace(s) && 0 <= q < |DropTrailingWord(s)|
    ensures !SpaceRunThenWord(s[q..])
  {
    var r := DropTrailingWord(s);
    var t := s[q..];
    assert t[|r| - 1 - q] == r[|r| - 1] && t[|r| - q] == s[|r|..][0];
  }

  /** `x` is how a truncated summary begins: the first SummaryLimit
      characters of `desc` cut where their last whitespace run starts, or
      all of them when they hold no whitespace; never empty. */
  predicate WordCut(desc: string, x: string)
  {
    && 0 < |x| <= SummaryLimit <= |desc| && x == desc[..|x|]
    && !IsSpace(x[|x| - 1])
    && (|| (|x| == SummaryLimit && !HasSpace(desc[..SummaryLimit]))
        || (|x| < SummaryLimit && SpaceRunThenWord(desc[|x|..SummaryLimit])))
  }

  /** A description has at most one word cut. */
  lemma WordCutUnique(desc: string, x: string, y: string)
    requires WordCut(desc, x) && WordCut(desc, y)
    ensures x == y
  {
    WordCutNotShorter(desc, x, y);
    WordCutNotShorter(desc, y, x);
  }

  lemma WordCutNotShorter(desc: string, x: string, y: string)
    requires WordCut(desc, x) && WordCut(desc, y)
    ensures |y| <= |x|
  {
  }

  /** Truncation of a prefix `s` of `desc` that starts with a non-space
      and is SummaryLimit long. */
  lemma TruncatedIsWordCut(desc: string, s: string)
    requires SummaryLimit <= |desc| && s == desc[..SummaryLimit] && !IsSpace(s[0])
    ensures WordCut(desc, DropTrailingWord(s))
  {
    var x := DropTrailingWord(s);
    if HasSpace(s) {
      assert s[|x|..][0] == s[|x|] == desc[|x|];
      if |x| == 0 {
        assert false;
      }
      assert s[|x|..] == desc[|x|..SummaryLimit];
    }
  }

  /** `r` is a truncated summary of `desc`: its word cut, then the ellipsis. */
  predicate CutWithEllipsis(desc: string, r: string)
  {
    |r| > |Ellipsis| && r[|r| - |Ellipsis|..] == Ellipsis && WordCut(desc, r[..|r| - |Ellipsis|])
  }

  /** The summary taken from a non-blank trimmed description. */
  function DescriptionSummary(desc: string): string
  {
    var first := FirstSentence(desc);
    var primeira := if first != "" then first else desc;
    if |primeira| < ShortSentence && |desc| > SummaryLimit then
      DropTrailingWord(desc[..SummaryLimit]) + Ellipsis
    else if |primeira| > SummaryLimit then
      DropTrailingWord(primeira[..SummaryLimit]) + Ellipsis
    else primeira
  }

  /** The summary is cut when the first sentence is shorter than
      ShortSentence and the description longer than SummaryLimit, or when
      the first sentence itself is longer than SummaryLimit; it is then the
      word cut of the description and the ellipsis. Otherwise it is the
      first sentence, of at most SummaryLimit characters. */
  lemma DescriptionSummarySpec(desc: string)
    requires desc != [] && !IsSpace(desc[0])
    ensures var first := FirstSentence(desc);
      var r := DescriptionSummary(desc);
      var cut := (|first| < ShortSentence && |desc| > SummaryLimit) || |first| > SummaryLimit;
      && (cut ==> CutWithEllipsis(desc, r) && |r| <= SummaryLimit + |Ellipsis|)
      && (!cut ==> r == first && |r| <= SummaryLimit)
  {
    var first := FirstSentence(desc);
    if |first| < ShortSentence && |desc| > SummaryLimit {
      TruncatedSummary(desc, desc[..SummaryLimit]);
    } else if |first| > SummaryLimit {
      assert first[..SummaryLimit] == desc[..SummaryLimit];
      TruncatedSummary(desc, desc[..SummaryLimit]);
    }
  }

  /** A truncated summary is a word cut of the description plus the ellipsis. */
  lemma TruncatedSummary(desc: string, s: string)
    requires SummaryLimit <= |desc| && s == desc[..SummaryLimit] && !IsSpace(s[0])
    ensures var r := DropTrailingWord(s) + Ellipsis;
      |r| <= SummaryLimit + |Ellipsis| && CutWithEllipsis(desc, r)
  {
    TruncatedIsWordCut(desc, s);
    var x := DropTrailingWord(s);
    assert (x + Ellipsis)[..|x|] == x;
  }

  /** `gerarResumoCurto`: the card's short summary. */
  function ShortSummary(p: Option<Project>): string
  {
    if p.None? then ""
    else
      var resumo := Trim(p.value.resumo);
      if resumo != "" then resumo
      else
        var desc := Trim(p.value.descricao);
        if desc == "" then "" else DescriptionSummary(desc)
  }

  /** What the short summary is. Without a project, nothing. A non-blank
      `resumo` wins, trimmed. With both fields blank, nothing. Otherwise
      the trimmed `descricao` gives it: cut at a word boundary within
      SummaryLimit characters and followed by the ellipsis when its first
      sentence is shorter than ShortSentence and it is longer than
      SummaryLimit, or when the first sentence is longer than SummaryLimit;
      else its first sentence. */
  lemma ShortSummarySpec(p: Option<Project>)
    ensures var r := ShortSummary(p);
      && (p.None? ==> r == "")
      && (p.Some? && !Blank(p.value.resumo) ==> r == Trim(p.value.resumo))
      && (p.Some? && Blank(p.value.resumo) && Blank(p.value.descricao) ==> r == "")
      && (p.Some? && Blank(p.value.resumo) && !Blank(p.value.descricao) ==>
            var desc := Trim(p.value.descricao);
            var first := FirstSentence(desc);
            var cut := (|first| < ShortSentence && |desc| > SummaryLimit) || |first| > SummaryLimit;
            && (cut ==> CutWithEllipsis(desc, r) && |r| <= SummaryLimit + |Ellipsis|)
            && (!cut ==> r == first && |r| <= SummaryLimit))
  {
    if p.Some? {
      TrimSpec(p.value.resumo);
      TrimSpec(p.value.descricao);
      if Blank(p.value.resumo) && !Blank(p.value.descricao) {
        DescriptionSummarySpec(Trim(p.value.descricao));
      }
    }
  }

  /** The summary of a project whose `resumo` is "X" is "X", whatever its
      description says. */
  lemma ShortSummaryPrefersResumo(p: Project)
    requires p.resumo == "X"
    ensures ShortSummary(Some(p)) == "X"
  {
    assert !IsSpace('X');
  }

  /** `obterDescricaoModal`: the detailed description, else the
      description, else a fixed notice. */
  function ModalDescription(p: Option<Project>): string
  {
    if p.None? then NoDescription
    else if Trim(p.value.descricaoDetalhada) != "" then Trim(p.value.descricaoDetalhada)
    else if Trim(p.value.descricao) != "" then Trim(p.value.descricao)
    else NoDescription
  }

  /** The modal description is never blank and always trimmed, and it
      takes the first non-blank of the detailed description and the
      description. */
  lemma ModalDescriptionSpec(p: Option<Project>)
    ensures var r := ModalDescription(p);
      && r != [] && !IsSpace(r[0]) && !IsSpace(r[|r| - 1])
      && (p.Some? && !Blank(p.value.descricaoDetalhada) ==> r == Trim(p.value.descricaoDetalhada))
      && (p.Some? && Blank(p.value.descricaoDetalhada) && !Blank(p.value.descricao) ==> r == Trim(p.value.descricao))
      && (p.None? || (Blank(p.value.descricaoDetalhada) && Blank(p.value.descricao)) ==> r == NoDescription)
  {
    if p.Some? {
      TrimSpec(p.value.descricaoDetalhada);
      TrimSpec(p.value.descricao);
    }
  }

  /** The modal's technology line: the list joined with ", ", or an em
      dash when the field is missing, not a list, or empty. */
  function TechText(techs: Option<seq<string>>): string
  {
    if techs.Some? && |techs.value| > 0 then Join(techs.value, ", ") else NoTechnologies
  }

  /** The technology line is the dash for a missing or empty list, and
      for a list only when its join is itself the dash; otherwise it gives
      the list back when split at its commas (for names without commas). */
  lemma TechTextRoundTrip(techs: Option<seq<string>>)
    ensures techs.None? || techs.value == [] ==> TechText(techs) == NoTechnologies
    ensures techs.Some? && techs.value != [] ==>
      (TechText(techs) == NoTechnologies <==> Join(techs.value, ", ") == NoTechnologies)
    ensures techs.Some? && techs.value != [] && (exists k :: 0 <= k < |techs.value| && ',' in techs.value[k]) ==>
      TechText(techs) != NoTechnologies
    ensures techs.Some? && techs.value != [] && (forall k :: 0 <= k < |techs.value| ==> ',' !in techs.value[k]) ==>
      SplitOnComma(TechText(techs)) == techs.value
  {
    if techs.Some? && techs.value != [] && (forall k :: 0 <= k < |techs.value| ==> ',' !in techs.value[k]) {
      SplitJoin(techs.value);
    }
    if techs.Some? && |techs.value| >= 2 {
      var line := Join(techs.value, ", ");
      assert line[|techs.value[0]|] == ',';
      assert ',' !in NoTechnologies;
    }
  }
}
