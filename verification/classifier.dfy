/** The keyword heuristics of `EarlyAccessProcessor` (early-access-processor.js):
    the category, priority, effort, integration targets and ROI sentence
    derived from a sign-up's company name and free-text challenge. */
module Classifier {
  import opened Options
  import opened Text

  datatype Category = Email | DataEntry | Reporting | Workflow

  datatype Effort = Easy | Medium | Hard

  /*** detectType ***/

  /** `/a|b|…/i.test(s)` for a pattern made of lower-case ASCII literal
      alternatives. Without the `u` flag a non-ASCII character never
      case-folds onto ASCII, so a character matches a lower-case ASCII
      letter exactly when its `LowerChar` is that letter. */
  predicate MatchesAnyCI(s: string, alternatives: seq<string>)
  {
    exists k :: 0 <= k < |alternatives| && Contains(Lower(s), alternatives[k])
  }

  const EmailTerms: seq<string> := ["email", "mail"]
  const DataEntryTerms: seq<string> := ["data", "entrada", "entry", "digit", "nfe", "invoice", "nota"]
  const ReportingTerms: seq<string> := ["report", "relat"]
  const WorkflowTerms: seq<string> := ["workflow", "processo", "fluxo"]

  /** `/email|mail/i` matches exactly the texts that contain "mail". */
  lemma EmailTermsMeanMail(s: string)
    ensures MatchesAnyCI(s, EmailTerms) <==> Contains(Lower(s), "mail")
  {
    assert EmailTerms[1] == "mail";
    if MatchesAnyCI(s, EmailTerms) {
      var k :| 0 <= k < |EmailTerms| && Contains(Lower(s), EmailTerms[k]);
      if k == 0 {
        assert "email"[1..] == "mail";
        assert Contains("email", "mail");
        ContainsTransitive(Lower(s), "email", "mail");
      }
    }
  }

  /** The patterns are tried in a fixed order; the workflow pattern and the
      fall-through give the same answer. */
  function DetectType(challenge: string): (c: Category)
    ensures c == Email <==> Contains(Lower(challenge), "mail")
    ensures c == DataEntry <==>
      !Contains(Lower(challenge), "mail") && MatchesAnyCI(challenge, DataEntryTerms)
    ensures c == Reporting <==>
      && !Contains(Lower(challenge), "mail")
      && !MatchesAnyCI(challenge, DataEntryTerms)
      && MatchesAnyCI(challenge, ReportingTerms)
    ensures c == Workflow <==>
      && !Contains(Lower(challenge), "mail")
      && !MatchesAnyCI(challenge, DataEntryTerms)
      && !MatchesAnyCI(challenge, ReportingTerms)
  {
    EmailTermsMeanMail(challenge);
    if MatchesAnyCI(challenge, EmailTerms) then Email
    else if MatchesAnyCI(challenge, DataEntryTerms) then DataEntry
    else if MatchesAnyCI(challenge, ReportingTerms) then Reporting
    else if MatchesAnyCI(challenge, WorkflowTerms) then Workflow
    else Workflow
  }

  /*** calculatePriority ***/

  const UrgentKeywords: seq<string> := ["urgente", "urgent", "cr\U{00ED}tico", "critical", "hoje"]

  /** `keywords.filter(k => text.includes(k)).length` */
  function CountContained(text: string, keywords: seq<string>): (n: nat)
    ensures n <= |keywords|
  {
    if |keywords| == 0 then 0
    else (if Contains(text, keywords[0]) then 1 else 0) + CountContained(text, keywords[1..])
  }

  /** Two plus one per urgency keyword found in the lower-cased text,
      capped at five. */
  function CalculatePriority(challenge: string): (p: int)
    ensures 2 <= p <= 5
  {
    var urgentCount := CountContained(Lower(challenge), UrgentKeywords);
    if 2 + urgentCount < 5 then 2 + urgentCount else 5
  }

  /** The count is zero exactly when no keyword occurs. */
  lemma {:induction false} CountContainedZero(text: string, keywords: seq<string>)
    ensures CountContained(text, keywords) == 0 <==>
      forall k :: 0 <= k < |keywords| ==> !Contains(text, keywords[k])
    decreases |keywords|
  {
    if |keywords| > 0 {
      CountContainedZero(text, keywords[1..]);
      assert forall k :: 1 <= k < |keywords| ==> keywords[k] == keywords[1..][k - 1];
    }
  }

  /** The distinct keywords of `keywords` that occur in `text`. */
  function PresentKeywords(text: string, keywords: seq<string>): set<string>
  {
    set w | w in keywords && Contains(text, w)
  }

  /** Counting the keywords that `includes` finds is counting the distinct
      keywords present, when no keyword is listed twice. */
  lemma {:induction false} CountContainedPresent(text: string, keywords: seq<string>)
    requires forall i, j :: 0 <= i < j < |keywords| ==> keywords[i] != keywords[j]
    ensures CountContained(text, keywords) == |PresentKeywords(text, keywords)|
    decreases |keywords|
  {
    if |keywords| > 0 {
      var rest := keywords[1..];
      assert forall i :: 0 <= i < |rest| ==> rest[i] == keywords[i + 1];
      CountContainedPresent(text, rest);
      assert keywords[0] !in rest;
      assert forall w :: w in keywords <==> w == keywords[0] || w in rest;
      if Contains(text, keywords[0]) {
        assert PresentKeywords(text, keywords) == {keywords[0]} + PresentKeywords(text, rest);
      } else {
        assert PresentKeywords(text, keywords) == PresentKeywords(text, rest);
      }
    }
  }

  /** The priority rises by one for each distinct urgency keyword the
      lower-cased challenge contains: 2 with none, 3 with one, 4 with two,
      and 5 from three on. */
  lemma PriorityCountsKeywords(challenge: string)
    ensures var n := |PresentKeywords(Lower(challenge), UrgentKeywords)|;
      && (n <= 3 ==> CalculatePriority(challenge) == 2 + n)
      && (n >= 3 ==> CalculatePriority(challenge) == 5)
  {
    CountContainedPresent(Lower(challenge), UrgentKeywords);
  }

  /** A challenge keeps the base priority 2 exactly when it mentions none
      of the urgency keywords. */
  lemma PriorityBaseIffNoKeyword(challenge: string)
    ensures CalculatePriority(challenge) == 2 <==>
      forall k :: 0 <= k < |UrgentKeywords| ==> !Contains(Lower(challenge), UrgentKeywords[k])
  {
    CountContainedZero(Lower(challenge), UrgentKeywords);
  }

  lemma {:induction false} CountContainedMonotone(s: string, t: string, keywords: seq<string>)
    requires forall k :: 0 <= k < |keywords| && Contains(s, keywords[k]) ==> Contains(t, keywords[k])
    ensures CountContained(s, keywords) <= CountContained(t, keywords)
    decreases |keywords|
  {
    if |keywords| > 0 {
      CountContainedMonotone(s, t, keywords[1..]);
    }
  }

  /** Priority only grows with the set of urgency keywords present. */
  lemma PriorityMonotone(s: string, t: string)
    requires forall k :: 0 <= k < |UrgentKeywords| && Contains(Lower(s), UrgentKeywords[k]) ==>
               Contains(Lower(t), UrgentKeywords[k])
    ensures CalculatePriority(s) <= CalculatePriority(t)
  {
    CountContainedMonotone(Lower(s), Lower(t), UrgentKeywords);
  }

  /** Appending text to a challenge never lowers its priority. */
  lemma PriorityGrowsWithText(s: string, u: string)
    ensures CalculatePriority(s) <= CalculatePriority(s + u)
  {
    LowerAppend(s, u);
    forall k | 0 <= k < |UrgentKeywords| && Contains(Lower(s), UrgentKeywords[k])
      ensures Contains(Lower(s + u), UrgentKeywords[k])
    {
      ContainsExtend(Lower(s), UrgentKeywords[k], "", Lower(u));
      assert "" + Lower(s) + Lower(u) == Lower(s + u);
    }
    PriorityMonotone(s, s + u);
  }

  /** "urgente" also contains "urgent", so on its own it already counts
      twice. */
  lemma UrgenteCountsTwice(s: string)
    requires Contains(Lower(s), "urgente")
    ensures CalculatePriority(s) >= 4
  {
    assert "urgente"[..6] == "urgent";
    assert Contains("urgente", "urgent");
    ContainsTransitive(Lower(s), "urgente", "urgent");
    var t := Lower(s);
    assert UrgentKeywords[0] == "urgente" && UrgentKeywords[1] == "urgent";
    assert CountContained(t, UrgentKeywords[1..]) >= 1 by {
      assert UrgentKeywords[1..][0] == "urgent";
    }
  }

  /** "urgente" with no other urgency keyword but its own prefix "urgent"
      gives exactly priority 4. */
  lemma UrgenteAloneGivesFour(s: string)
    requires Contains(Lower(s), "urgente")
    requires !Contains(Lower(s), "cr\U{00ED}tico")
    requires !Contains(Lower(s), "critical")
    requires !Contains(Lower(s), "hoje")
    ensures CalculatePriority(s) == 4
  {
    var t := Lower(s);
    assert "urgente"[..6] == "urgent";
    assert Contains("urgente", "urgent");
    ContainsTransitive(t, "urgente", "urgent");
    var ks := UrgentKeywords;
    assert ks[1..][1..][1..][1..][1..] == [];
    assert CountContained(t, ks[1..][1..][1..][1..]) == 0;
    assert CountContained(t, ks[1..][1..][1..]) == 0;
    assert CountContained(t, ks[1..][1..]) == 0;
    assert CountContained(t, ks[1..]) == 1;
    assert CountContained(t, ks) == 2;
  }

  /*** estimateEffort ***/

  /** `challenge.split(' ').length` */
  function WordCount(challenge: string): nat
  {
    |Split(challenge, ' ')|
  }

  /** The effort bucket, stated by the number of space characters: the
      word count is one more than that, so 19 words are easy, 20 and 49
      medium, 50 hard, and the empty text is one word. */
  function EstimateEffort(challenge: string): (e: Effort)
    ensures e == Easy <==> CountChar(challenge, ' ') < 19
    ensures e == Medium <==> 19 <= CountChar(challenge, ' ') < 49
    ensures e == Hard <==> 49 <= CountChar(challenge, ' ')
  {
    var wordCount := WordCount(challenge);
    if wordCount < 20 then Easy else if wordCount < 50 then Medium else Hard
  }

  function EffortRank(e: Effort): nat
  {
    match e
    case Easy => 0
    case Medium => 1
    case Hard => 2
  }

  lemma {:induction false} CountCharAppend(s: string, u: string, c: char)
    ensures CountChar(s + u, c) == CountChar(s, c) + CountChar(u, c)
    decreases |s|
  {
    if |s| == 0 {
      assert s + u == u;
    } else {
      assert (s + u)[1..] == s[1..] + u;
      CountCharAppend(s[1..], u, c);
    }
  }

  /** Appending text to a challenge never lowers its effort bucket. */
  lemma EffortGrowsWithText(s: string, u: string)
    ensures EffortRank(EstimateEffort(s)) <= EffortRank(EstimateEffort(s + u))
  {
    CountCharAppend(s, u, ' ');
  }

  /*** detectTools ***/

  const Automation := "Automa\U{00E7}\U{00E3}o"

  /** "ERP" when the company name mentions "ltda", then "API" when it
      mentions "tech", and always the generic automation last. */
  function DetectTools(company: string): (tools: seq<string>)
    ensures 1 <= |tools| <= 3
    ensures tools[|tools| - 1] == Automation
    ensures "ERP" in tools <==> Contains(Lower(company), "ltda")
    ensures "API" in tools <==> Contains(Lower(company), "tech")
    ensures "ERP" in tools ==> tools[0] == "ERP"
    ensures "API" in tools ==> tools[|tools| - 2] == "API"
    ensures |tools| == 1 + (if Contains(Lower(company), "ltda") then 1 else 0)
                         + (if Contains(Lower(company), "tech") then 1 else 0)
  {
    var erp := if Contains(Lower(company), "ltda") then ["ERP"] else [];
    var api := if Contains(Lower(company), "tech") then ["API"] else [];
    erp + api + [Automation]
  }

  /*** estimateROI ***/

  const RoiSuffix := " horas por m\U{00EA}s economizadas"
  const DefaultRoi := "20+" + RoiSuffix

  /** End of the run of digits starting at `i`. */
  function DigitRunEnd(s: string, i: nat): (j: nat)
    requires i <= |s|
    ensures i <= j <= |s|
    ensures forall k :: i <= k < j ==> IsDigit(s[k])
    ensures j == |s| || !IsDigit(s[j])
    decreases |s| - i
  {
    if i < |s| && IsDigit(s[i]) then DigitRunEnd(s, i + 1) else i
  }

  /** End of the run of white space starting at `i`. */
  function SpaceRunEnd(s: string, i: nat): (j: nat)
    requires i <= |s|
    ensures i <= j <= |s|
    ensures forall k :: i <= k < j ==> IsSpace(s[k])
    ensures j == |s| || !IsSpace(s[j])
    decreases |s| - i
  {
    if i < |s| && IsSpace(s[i]) then SpaceRunEnd(s, i + 1) else i
  }

  /** `s` starts with the lower-case ASCII literal `p`, ignoring case. */
  predicate StartsWithCI(s: string, p: string)
  {
    |p| <= |s| && Lower(s[..|p|]) == p
  }

  /** `(horas?|hrs?)` matches at the start of `u`; the optional `s` never
      decides whether it matches. */
  predicate HourUnit(u: string)
  {
    StartsWithCI(u, "hora") || StartsWithCI(u, "hr")
  }

  /** `\s*(horas?|hrs?)` matches at offset `j`, white space taken greedily. */
  predicate UnitFollows(s: string, j: nat)
    requires j <= |s|
  {
    HourUnit(s[SpaceRunEnd(s, j)..])
  }

  /** The match of `/(\d+)\s*(horas?|hrs?)/i` anchored at offset `i`, as the
      digits of group 1. `\d+` and `\s*` are greedy; giving back characters
      cannot help, since what they give back is a digit or white space and
      the unit has to start with an `h`. */
  function MatchAt(s: string, i: nat): Option<string>
  {
    if i < |s| && IsDigit(s[i]) then
      var j := DigitRunEnd(s, i);
      if UnitFollows(s, j) then Some(s[i..j]) else None
    else
      None
  }

  /** `String.prototype.match` looks for the leftmost offset that matches. */
  function FirstMatch(s: string, from: nat): (m: Option<nat>)
    ensures m.Some? ==>
      && from <= m.value < |s|
      && MatchAt(s, m.value).Some?
      && forall j :: from <= j < m.value ==> MatchAt(s, j).None?
    ensures m.None? ==> forall j :: from <= j ==> MatchAt(s, j).None?
    decreases |s| - from
  {
    if from >= |s| then None
    else if MatchAt(s, from).Some? then Some(from)
    else FirstMatch(s, from + 1)
  }

  /** `parseInt` of the first captured run of digits, printed back in
      front of the fixed sentence; the default sentence when nothing
      matches. In terms of hour claims: the default sentence exactly when
      the text states no hour count, and otherwise the value of the
      first one. */
  function EstimateROI(challenge: string): (roi: string)
    ensures roi == DefaultRoi <==> forall i: nat :: !HoursClaimAt(challenge, i)
    ensures forall i: nat :: HoursClaimAt(challenge, i) && (forall j: nat :: j < i ==> !HoursClaimAt(challenge, j)) ==>
              roi == DecimalString(DecimalValue(challenge[i..DigitRunEnd(challenge, i)])) + RoiSuffix
  {
    FirstMatchIsFirstClaim(challenge);
    match FirstMatch(challenge, 0)
    case Some(i) =>
      var hours := DecimalValue(MatchAt(challenge, i).value);
      DigitsNotDefault(DecimalString(hours));
      DecimalString(hours) + RoiSuffix
    case None =>
      DefaultRoi
  }

  /** The text states an hour count at `i`: a maximal run of digits starts
      there and is followed, after optional white space, by an hour unit. */
  predicate HoursClaimAt(s: string, i: nat)
  {
    && i < |s| && IsDigit(s[i])
    && (i == 0 || !IsDigit(s[i - 1]))
    && UnitFollows(s, DigitRunEnd(s, i))
  }

  /** A match inside a run of digits is also a match at the start of
      that run. */
  lemma {:induction false} MatchRunStart(s: string, j: nat) returns (r: nat)
    requires MatchAt(s, j).Some?
    ensures r <= j && HoursClaimAt(s, r)
    ensures forall k :: r <= k < j ==> IsDigit(s[k])
    ensures DigitRunEnd(s, r) == DigitRunEnd(s, j)
    decreases j
  {
    if j == 0 || !IsDigit(s[j - 1]) {
      r := j;
    } else {
      assert DigitRunEnd(s, j - 1) == DigitRunEnd(s, j);
      r := MatchRunStart(s, j - 1);
    }
  }

  lemma MatchAtClaim(s: string, i: nat)
    requires HoursClaimAt(s, i)
    ensures MatchAt(s, i) == Some(s[i..DigitRunEnd(s, i)])
  {
  }

  /** The leftmost match is the first stated hour count, with the digits
      of that count as its capture, and there is a match exactly when
      some hour count is stated. */
  lemma FirstMatchIsFirstClaim(s: string)
    ensures FirstMatch(s, 0).None? <==> forall i: nat :: !HoursClaimAt(s, i)
    ensures FirstMatch(s, 0).Some? ==>
      var m := FirstMatch(s, 0).value;
      && HoursClaimAt(s, m)
      && (forall j :: 0 <= j < m ==> !HoursClaimAt(s, j))
      && MatchAt(s, m) == Some(s[m..DigitRunEnd(s, m)])
    ensures forall i: nat :: HoursClaimAt(s, i) && (forall j: nat :: j < i ==> !HoursClaimAt(s, j)) ==>
              FirstMatch(s, 0) == Some(i)
  {
    match FirstMatch(s, 0)
    case Some(m) =>
      var r := MatchRunStart(s, m);
      MatchAtClaim(s, r);
      assert r == m;
      MatchAtClaim(s, m);
      forall j | 0 <= j < m && HoursClaimAt(s, j)
        ensures false
      {
        MatchAtClaim(s, j);
      }
      forall i: nat | HoursClaimAt(s, i) && (forall j: nat :: j < i ==> !HoursClaimAt(s, j))
        ensures i == m
      {
        assert !(i < m);
        assert !(m < i);
      }
    case None =>
      forall i | HoursClaimAt(s, i)
        ensures false
      {
        MatchAtClaim(s, i);
      }
  }

  lemma DigitsNotDefault(ds: string)
    requires AllDigits(ds)
    ensures ds + RoiSuffix != DefaultRoi
  {
    if |ds| == 3 {
      assert (ds + RoiSuffix)[2] == ds[2];
      assert DefaultRoi[2] == '+';
    } else {
      assert |ds + RoiSuffix| != |DefaultRoi|;
    }
  }

  /** An hour unit starts with an `h` or an `H`, which is neither a digit
      nor white space. */
  lemma HourUnitStart(u: string)
    requires HourUnit(u)
    ensures |u| > 0 && !IsDigit(u[0]) && !IsSpace(u[0])
  {
    assert LowerChar(u[0]) == 'h' by {
      if StartsWithCI(u, "hora") {
        assert Lower(u[..4])[0] == 'h';
      } else {
        assert Lower(u[..2])[0] == 'h';
      }
    }
  }

  /** Writing a number of hours in front of an hour unit gets that number
      back in the ROI sentence. */
  lemma RoiReportsStatedHours(n: nat, gap: string, unit: string)
    requires AllSpace(gap)
    requires HourUnit(unit)
    ensures EstimateROI(DecimalString(n) + gap + unit) == DecimalString(n) + RoiSuffix
  {
    var ds := DecimalString(n);
    var s := ds + gap + unit;
    HourUnitStart(unit);
    assert s[|ds| + |gap|..] == unit;
    assert !IsDigit(s[|ds|]) by {
      if |gap| > 0 { assert s[|ds|] == gap[0]; } else { assert s[|ds|] == unit[0]; }
    }
    assert DigitRunEnd(s, 0) == |ds| by {
      DigitRunFrom(s, 0, |ds|);
    }
    assert SpaceRunEnd(s, |ds|) == |ds| + |gap| by {
      assert s[|ds| + |gap|] == unit[0];
      SpaceRunFrom(s, |ds|, |ds| + |gap|);
    }
    assert s[0..|ds|] == ds;
    assert HoursClaimAt(s, 0);
    DecimalRoundTrip(n);
  }

  lemma {:induction false} DigitRunFrom(s: string, i: nat, j: nat)
    requires i <= j <= |s|
    requires forall k :: i <= k < j ==> IsDigit(s[k])
    requires j == |s| || !IsDigit(s[j])
    ensures DigitRunEnd(s, i) == j
    decreases j - i
  {
    if i < j {
      DigitRunFrom(s, i + 1, j);
    }
  }

  lemma {:induction false} SpaceRunFrom(s: string, i: nat, j: nat)
    requires i <= j <= |s|
    requires forall k :: i <= k < j ==> IsSpace(s[k])
    requires j == |s| || !IsSpace(s[j])
    ensures SpaceRunEnd(s, i) == j
    decreases j - i
  {
    if i < j {
      SpaceRunFrom(s, i + 1, j);
    }
  }

  /*** generateCode dispatch ***/

  /** The code template `generateCode` picks: one per named category and the
      generic one for everything else. */
  datatype Script = EmailScript | DataEntryScript | ReportingScript | GenericScript

  function ScriptFor(c: Category): Script
  {
    match c
    case Email => EmailScript
    case DataEntry => DataEntryScript
    case Reporting => ReportingScript
    case Workflow => GenericScript
  }

  /** A challenge gets the generic template exactly when it mentions no
      mail, data-entry or reporting term. */
  lemma GenericScriptWithoutKnownTerms(challenge: string)
    ensures ScriptFor(DetectType(challenge)) == GenericScript <==>
      && !Contains(Lower(challenge), "mail")
      && !MatchesAnyCI(challenge, DataEntryTerms)
      && !MatchesAnyCI(challenge, ReportingTerms)
  {
  }

  /*** analyzeChallenge ***/

  datatype Analysis = Analysis(
    kind: Category,
    priority: int,
    effort: Effort,
    toolsNeeded: seq<string>,
    estimatedRoi: string,
    solutionTemplate: string)

  const TemplatePrefix := "Automa\U{00E7}\U{00E3}o customizada para "

  /** The analysis embedded into each solution. */
  function AnalyzeChallenge(company: string, challenge: string): (a: Analysis)
    ensures 2 <= a.priority <= 5
    ensures 1 <= |a.toolsNeeded| <= 3
    ensures a.kind == Email <==> Contains(Lower(challenge), "mail")
    ensures TemplatePrefix <= a.solutionTemplate
  {
    Analysis(
      DetectType(challenge),
      CalculatePriority(challenge),
      EstimateEffort(challenge),
      DetectTools(company),
      EstimateROI(challenge),
      TemplatePrefix + company)
  }
}
