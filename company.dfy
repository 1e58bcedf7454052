/**
 * Company extraction: `extractCompanyName(subject, body)` tries three strategies in order.
 *   1. The regular expressions `/at ([A-Z][a-zA-Z0-9&.\- ]+)/`, then `by`, `in`, `to`, each on the
 *      subject and then on the body; the first match's group, trimmed, is the company.
 *   2. The global expression `/\b([A-Z][a-zA-Z0-9&.\-]+)\b/g`, run with `exec` over the subject and
 *      then the body; the first token whose lower-case form is not "application", "interview",
 *      "offer" or "update" is the company.
 *   3. `subject.split(' ')[0]`.
 * The regular expressions are modelled as the leftmost-match functions a backtracking engine computes.
 */
module Company {
  import opened Wrappers
  import opened Text

  /** `[a-zA-Z0-9&.\- ]`, the phrase class of the preposition patterns. */
  predicate InPhrase(c: char) { IsLetter(c) || IsDigit(c) || c == '&' || c == '.' || c == '-' || c == ' ' }

  /** `[a-zA-Z0-9&.\-]`, the class of the capitalized-token pattern. */
  predicate InToken(c: char) { IsLetter(c) || IsDigit(c) || c == '&' || c == '.' || c == '-' }

  /** End of the longest run of `cls` characters of `s` from `j` on, as a greedy repetition takes it. */
  function RunEnd(s: string, j: nat, cls: char -> bool): (k: nat)
    requires j <= |s|
    ensures j <= k <= |s|
    ensures forall m :: j <= m < k ==> cls(s[m])
    ensures k == |s| || !cls(s[k])
    decreases |s| - j
  {
    if j < |s| && cls(s[j]) then RunEnd(s, j + 1, cls) else j
  }

  // ---------------------------------------------------------------------------------------------
  // Strategy 1: a preposition followed by a capitalized phrase

  /** The patterns' prepositions, in the order they are tried. */
  const Prepositions: seq<string> := ["at", "by", "in", "to"]

  /**
   * `/<prep> ([A-Z][a-zA-Z0-9&.\- ]+)/` matches at index `i`: the preposition (with no word boundary
   * before it), a space, an upper-case letter and at least one more phrase character.
   */
  predicate PrepMatchesAt(s: string, prep: string, i: int)
  {
    0 <= i && i + |prep| + 2 < |s| && s[i + |prep|] == ' ' && IsUpper(s[i + |prep| + 1])
    && InPhrase(s[i + |prep| + 2]) && s[i..i + |prep|] == prep
  }

  /** Group 1 of the match at `i`: the longest phrase that starts at the upper-case letter. */
  function PrepCapture(s: string, prep: string, i: nat): (r: string)
    requires PrepMatchesAt(s, prep, i)
    ensures |r| >= 2 && IsUpper(r[0])
    ensures forall m :: 0 <= m < |r| ==> InPhrase(r[m])
    ensures i + |prep| + 1 + |r| <= |s| && r == s[i + |prep| + 1..i + |prep| + 1 + |r|]
    ensures i + |prep| + 1 + |r| == |s| || !InPhrase(s[i + |prep| + 1 + |r|])
  {
    var c := i + |prep| + 1;
    s[c..RunEnd(s, c + 1, InPhrase)]
  }

  /** The leftmost index at or after `from` where the preposition pattern matches. */
  function FindPrep(s: string, prep: string, from: nat): (r: Option<nat>)
    ensures r.Some? ==> from <= r.value && PrepMatchesAt(s, prep, r.value)
    ensures r.Some? ==> forall i :: from <= i < r.value ==> !PrepMatchesAt(s, prep, i)
    ensures r.None? ==> forall i :: from <= i ==> !PrepMatchesAt(s, prep, i)
    decreases |s| - from
  {
    if from >= |s| then None
    else if PrepMatchesAt(s, prep, from) then Some(from)
    else FindPrep(s, prep, from + 1)
  }

  /** A capture that starts with an upper-case letter keeps it when trimmed. */
  lemma TrimKeepsCapital(x: string)
    requires x != [] && IsUpper(x[0])
    ensures Trim(x) != [] && Trim(x)[0] == x[0] && Trim(x) <= x
  {
    var a := TrimmedStart(x, 0);
    var b := TrimmedEnd(x, a, |x|);
    assert a == 0;
  }

  /** `s.match(/<prep> (...)/)` followed by `match[1].trim()`. */
  function MatchPrep(s: string, prep: string): (r: Option<string>)
    ensures r.None? <==> forall i :: !PrepMatchesAt(s, prep, i)
    ensures r.Some? ==> r.value != [] && IsUpper(r.value[0])
  {
    match FindPrep(s, prep, 0)
    case None => None
    case Some(i) =>
      TrimKeepsCapital(PrepCapture(s, prep, i));
      Some(Trim(PrepCapture(s, prep, i)))
  }

  /** `match` reports the leftmost occurrence of the pattern. */
  lemma MatchPrepAt(s: string, prep: string, i: nat)
    requires PrepMatchesAt(s, prep, i)
    requires forall j :: 0 <= j < i ==> !PrepMatchesAt(s, prep, j)
    ensures MatchPrep(s, prep) == Some(Trim(PrepCapture(s, prep, i)))
  {
  }

  /** Neither the subject nor the body matches the pattern of `prep`. */
  predicate NoPrepMatch(subject: string, body: string, prep: string)
  {
    MatchPrep(subject, prep).None? && MatchPrep(body, prep).None?
  }

  /** The loop over the patterns: each one on the subject, then on the body. */
  function FirstPrepMatch(subject: string, body: string, preps: seq<string>): (r: Option<string>)
    ensures r.None? <==> forall k :: 0 <= k < |preps| ==> NoPrepMatch(subject, body, preps[k])
    ensures r.Some? ==> r.value != [] && IsUpper(r.value[0])
  {
    if preps == [] then None
    else if MatchPrep(subject, preps[0]).Some? then MatchPrep(subject, preps[0])
    else if MatchPrep(body, preps[0]).Some? then MatchPrep(body, preps[0])
    else
      assert forall k :: 1 <= k < |preps| ==> preps[k] == preps[1..][k - 1];
      FirstPrepMatch(subject, body, preps[1..])
  }

  /**
   * The pattern order is outermost and the field order innermost: when the patterns before `k`
   * match neither field and pattern `k` matches one, its match on the subject wins, else on the body.
   */
  lemma {:induction false} FirstPrepMatchAt(subject: string, body: string, preps: seq<string>, k: nat)
    requires k < |preps| && !NoPrepMatch(subject, body, preps[k])
    requires forall j :: 0 <= j < k ==> NoPrepMatch(subject, body, preps[j])
    ensures FirstPrepMatch(subject, body, preps)
         == if MatchPrep(subject, preps[k]).Some? then MatchPrep(subject, preps[k]) else MatchPrep(body, preps[k])
  {
    if k > 0 {
      var rest := preps[1..];
      assert NoPrepMatch(subject, body, preps[0]);
      assert FirstPrepMatch(subject, body, preps) == FirstPrepMatch(subject, body, rest);
      assert rest[k - 1] == preps[k];
      forall j | 0 <= j < k - 1 ensures NoPrepMatch(subject, body, rest[j]) {
        assert rest[j] == preps[j + 1];
      }
      FirstPrepMatchAt(subject, body, rest, k - 1);
    }
  }

  /** Strategy 1. */
  function PrepositionStrategy(subject: string, body: string): Option<string>
  {
    FirstPrepMatch(subject, body, Prepositions)
  }

  // ---------------------------------------------------------------------------------------------
  // Strategy 2: capitalized tokens between word boundaries

  predicate WordAt(s: string, j: int) { 0 <= j < |s| && IsWordChar(s[j]) }

  /** `\b` at position `k`: a word character on exactly one side. */
  predicate Boundary(s: string, k: int) { WordAt(s, k - 1) != WordAt(s, k) }

  /** `/\b([A-Z][a-zA-Z0-9&.\-]+)\b/` can match exactly `s[p..e]`. */
  predicate TokenMatch(s: string, p: int, e: int)
  {
    0 <= p && p + 2 <= e <= |s| && Boundary(s, p) && IsUpper(s[p])
    && (forall m :: p < m < e ==> InToken(s[m])) && Boundary(s, e)
  }

  /** Giving back characters of the greedy run one at a time until `\b` holds at its end. */
  function Backtrack(s: string, p: nat, e: nat): (r: Option<nat>)
    requires e <= |s|
    ensures r.Some? ==> p + 2 <= r.value <= e && Boundary(s, r.value)
    ensures r.Some? ==> forall k :: r.value < k <= e ==> !Boundary(s, k)
    ensures r.None? ==> forall k :: p + 2 <= k <= e ==> !Boundary(s, k)
    decreases e
  {
    if e < p + 2 then None
    else if Boundary(s, e) then Some(e)
    else Backtrack(s, p, e - 1)
  }

  /** The end of the token the engine matches at `p`: the longest `e` with `TokenMatch(s, p, e)`. */
  function TokenEndAt(s: string, p: nat): (r: Option<nat>)
    ensures r.Some? ==> TokenMatch(s, p, r.value)
    ensures r.Some? ==> forall e :: TokenMatch(s, p, e) ==> e <= r.value
    ensures r.None? ==> forall e :: !TokenMatch(s, p, e)
  {
    if p < |s| && Boundary(s, p) && IsUpper(s[p]) then
      var run := RunEnd(s, p + 1, InToken);
      assert forall e :: TokenMatch(s, p, e) ==> e <= run;
      Backtrack(s, p, run)
    else None
  }

  /** One `exec` with `lastIndex == from`: the leftmost match at or after `from`, as (start, end). */
  function FindToken(s: string, from: nat): (r: Option<(nat, nat)>)
    ensures r.Some? ==> from <= r.value.0 && TokenEndAt(s, r.value.0) == Some(r.value.1)
    ensures r.Some? ==> forall q :: from <= q < r.value.0 ==> TokenEndAt(s, q).None?
    ensures r.None? ==> forall q :: from <= q ==> TokenEndAt(s, q).None?
    decreases |s| - from
  {
    if from >= |s| then None
    else
      match TokenEndAt(s, from)
      case Some(e) => Some((from, e))
      case None => FindToken(s, from + 1)
  }

  /** The tokens the `exec` loop visits, from `lastIndex == from` on; each resumes at the last end. */
  function Tokens(s: string, from: nat): seq<string>
    decreases |s| - from
  {
    match FindToken(s, from)
    case None => []
    case Some((p, e)) => [s[p..e]] + Tokens(s, e)
  }

  /** Every token the loop visits is a capital letter followed by at least one token character. */
  lemma {:induction false} TokensAreCapitalized(s: string, from: nat)
    ensures forall t :: t in Tokens(s, from) ==> |t| >= 2 && IsUpper(t[0]) && forall m :: 0 <= m < |t| ==> InToken(t[m])
    decreases |s| - from
  {
    match FindToken(s, from)
    case None =>
    case Some((p, e)) =>
      TokensAreCapitalized(s, e);
      assert TokenMatch(s, p, e);
      assert forall m :: 0 <= m < e - p ==> s[p..e][m] == s[p + m];
  }

  /** One turn of the `exec` loop: the first token found, then the tokens from its end on. */
  lemma TokensStep(s: string, from: nat, p: nat, e: nat)
    requires FindToken(s, from) == Some((p, e))
    ensures from <= p && p + 2 <= e <= |s| && Tokens(s, from) == [s[p..e]] + Tokens(s, e)
  {
  }

  /** The words the filter rejects, compared after lower-casing. */
  predicate IsExcluded(token: string)
  {
    var t := ToLower(token);
    t == "application" || t == "interview" || t == "offer" || t == "update"
  }

  /** The tokens kept as candidates, in order. */
  function Survivors(tokens: seq<string>): (r: seq<string>)
    ensures forall t :: t in r ==> t in tokens && !IsExcluded(t)
    ensures forall t :: t in tokens && !IsExcluded(t) ==> t in r
  {
    if tokens == [] then []
    else
      var rest := Survivors(tokens[1..]);
      assert forall t :: t in tokens[1..] ==> t in tokens;
      assert forall t :: t in tokens ==> t == tokens[0] || t in tokens[1..];
      (if IsExcluded(tokens[0]) then [] else [tokens[0]]) + rest
  }

  /** Filtering one more token onto what has been collected so far. */
  lemma SurvivorsCons(collected: seq<string>, token: string, rest: seq<string>)
    ensures collected + Survivors([token] + rest)
         == (if IsExcluded(token) then collected else collected + [token]) + Survivors(rest)
  {
    assert ([token] + rest)[1..] == rest;
    if IsExcluded(token) {
      assert [] + Survivors(rest) == Survivors(rest);
    } else {
      assert collected + ([token] + Survivors(rest)) == (collected + [token]) + Survivors(rest);
    }
  }

  /** The first candidate is the first token that is not excluded. */
  lemma {:induction false} FirstSurvivor(tokens: seq<string>)
    requires Survivors(tokens) != []
    ensures exists k :: 0 <= k < |tokens| && Survivors(tokens)[0] == tokens[k]
                        && forall j :: 0 <= j < k ==> IsExcluded(tokens[j])
  {
    if !IsExcluded(tokens[0]) {
      assert Survivors(tokens)[0] == tokens[0];
    } else {
      var rest := tokens[1..];
      assert Survivors(tokens) == Survivors(rest);
      FirstSurvivor(rest);
      var k :| 0 <= k < |rest| && Survivors(rest)[0] == rest[k]
               && forall j :: 0 <= j < k ==> IsExcluded(rest[j]);
      forall j | 0 <= j < k + 1 ensures IsExcluded(tokens[j]) {
        if j > 0 {
          assert tokens[j] == rest[j - 1];
        }
      }
      assert Survivors(tokens)[0] == tokens[k + 1];
    }
  }

  /** The `candidates` array after both `exec` loops. */
  function Candidates(subject: string, body: string): seq<string>
  {
    Survivors(Tokens(subject, 0)) + Survivors(Tokens(body, 0))
  }

  // ---------------------------------------------------------------------------------------------
  // Strategy 3 and the whole extraction

  /** `s.split(' ')[0]`: everything before the first space, or all of `s`. */
  function FirstWord(s: string): (r: string)
    ensures r <= s && ' ' !in r
    ensures |r| == |s| || s[|r|] == ' '
  {
    if s == [] || s[0] == ' ' then [] else [s[0]] + FirstWord(s[1..])
  }

  /** The company name `extractCompanyName` returns. */
  function CompanyName(subject: string, body: string): string
  {
    match PrepositionStrategy(subject, body)
    case Some(name) => name
    case None =>
      var candidates := Candidates(subject, body);
      if |candidates| > 0 then candidates[0] else FirstWord(subject)
  }

  /** The candidates still to come from `lastIndex == from` on, after one more turn of the loop. */
  lemma CollectStep(s: string, from: nat, p: nat, e: nat, collected: seq<string>)
    requires FindToken(s, from) == Some((p, e))
    ensures from < e <= |s|
    ensures collected + Survivors(Tokens(s, from))
         == (if IsExcluded(s[p..e]) then collected else collected + [s[p..e]]) + Survivors(Tokens(s, e))
  {
    TokensStep(s, from, p, e);
    SurvivorsCons(collected, s[p..e], Tokens(s, e));
  }

  /**
   * One `exec` loop of strategy 2 over `s`: append every matched token that is not excluded to
   * `candidates`, resuming each search at the end of the previous match.
   */
  method CollectCandidates(s: string, candidates: seq<string>) returns (r: seq<string>)
    ensures r == candidates + Survivors(Tokens(s, 0))
  {
    r := candidates;
    var lastIndex := 0;
    var m := FindToken(s, lastIndex);
    while m.Some?
      invariant lastIndex <= |s|
      invariant m == FindToken(s, lastIndex)
      invariant r + Survivors(Tokens(s, lastIndex)) == candidates + Survivors(Tokens(s, 0))
      decreases |s| - lastIndex
    {
      var (p, e) := m.value;
      CollectStep(s, lastIndex, p, e, r);
      var token := s[p..e];
      if !IsExcluded(token) {
        r := r + [token];
      }
      lastIndex := e;
      m := FindToken(s, lastIndex);
    }
    assert Tokens(s, lastIndex) == [];
  }

  /** `extractCompanyName(subject, body)`. */
  method ExtractCompanyName(subject: string, body: string) returns (company: string)
    ensures company == CompanyName(subject, body)
  {
    var matched := PrepositionStrategy(subject, body);
    if matched.Some? {
      return matched.value;
    }
    var candidates := CollectCandidates(subject, []);
    candidates := CollectCandidates(body, candidates);
    if |candidates| > 0 {
      return candidates[0];
    }
    return FirstWord(subject);
  }

  // ---------------------------------------------------------------------------------------------
  // What the extraction promises

  /** The first token the loop visits is the leftmost match, as long as `\b` allows. */
  lemma FirstTokenIsLeftmost(s: string)
    ensures Tokens(s, 0) == [] <==> forall p, e :: !TokenMatch(s, p, e)
    ensures Tokens(s, 0) != [] ==>
      exists p, e :: TokenMatch(s, p, e) && Tokens(s, 0)[0] == s[p..e]
        && (forall q, f :: TokenMatch(s, q, f) ==> p <= q)
        && (forall f :: TokenMatch(s, p, f) ==> f <= e)
  {
    match FindToken(s, 0)
    case None =>
      forall p, e | TokenMatch(s, p, e) ensures TokenEndAt(s, p).Some? {
      }
    case Some((p, e)) =>
      TokensStep(s, 0, p, e);
      assert TokenMatch(s, p, e) && Tokens(s, 0)[0] == s[p..e];
      forall q, f | TokenMatch(s, q, f) ensures TokenEndAt(s, q).Some? {
      }
  }

  /** Strategy 1 wins whenever one of its patterns matches: a non-empty name with a capital first. */
  lemma CompanyByPreposition(subject: string, body: string)
    requires PrepositionStrategy(subject, body).Some?
    ensures CompanyName(subject, body) == PrepositionStrategy(subject, body).value
    ensures CompanyName(subject, body) != [] && IsUpper(CompanyName(subject, body)[0])
  {
  }

  /**
   * Without a preposition match, the first surviving capitalized token wins: it is a token of the
   * subject when the subject has one, else of the body, and it is not one of the excluded words.
   */
  lemma CompanyByToken(subject: string, body: string)
    requires PrepositionStrategy(subject, body).None? && Candidates(subject, body) != []
    ensures var name := CompanyName(subject, body);
      && |name| >= 2 && IsUpper(name[0]) && (forall m :: 0 <= m < |name| ==> InToken(name[m]))
      && !IsExcluded(name)
      && (if Survivors(Tokens(subject, 0)) != [] then name in Tokens(subject, 0) else name in Tokens(body, 0))
  {
    var name := CompanyName(subject, body);
    TokensAreCapitalized(subject, 0);
    TokensAreCapitalized(body, 0);
    if Survivors(Tokens(subject, 0)) != [] {
      assert name == Survivors(Tokens(subject, 0))[0];
    } else {
      assert name == Survivors(Tokens(body, 0))[0];
    }
  }

  /** With no preposition match and no candidate, the name is the subject's first word, maybe "". */
  lemma CompanyByFirstWord(subject: string, body: string)
    requires PrepositionStrategy(subject, body).None? && Candidates(subject, body) == []
    ensures CompanyName(subject, body) <= subject && ' ' !in CompanyName(subject, body)
    ensures |CompanyName(subject, body)| == |subject| || subject[|CompanyName(subject, body)|] == ' '
  {
  }

  /** Text without any capital letter can only fall through to the first word of the subject. */
  lemma {:induction false} NoCapitalsMeansFirstWord(subject: string, body: string)
    requires forall i :: 0 <= i < |subject| ==> !IsUpper(subject[i])
    requires forall i :: 0 <= i < |body| ==> !IsUpper(body[i])
    ensures CompanyName(subject, body) == FirstWord(subject)
  {
    forall k | 0 <= k < |Prepositions| ensures NoPrepMatch(subject, body, Prepositions[k]) {
      var prep := Prepositions[k];
      assert forall i :: !PrepMatchesAt(subject, prep, i) && !PrepMatchesAt(body, prep, i);
    }
    NoTokensWithoutCapitals(subject);
    NoTokensWithoutCapitals(body);
  }

  lemma NoTokensWithoutCapitals(s: string)
    requires forall i :: 0 <= i < |s| ==> !IsUpper(s[i])
    ensures Tokens(s, 0) == []
  {
    FirstTokenIsLeftmost(s);
    assert forall p, e :: !TokenMatch(s, p, e);
  }

  // ---------------------------------------------------------------------------------------------
  // Worked examples

  lemma AtLeftmostInInvitation()
    ensures PrepMatchesAt("Interview invitation at Acme Corp", "at", 21)
    ensures forall j :: 0 <= j < 21 ==> !PrepMatchesAt("Interview invitation at Acme Corp", "at", j)
  {
  }

  lemma CaptureInInvitation()
    requires PrepMatchesAt("Interview invitation at Acme Corp", "at", 21)
    ensures PrepCapture("Interview invitation at Acme Corp", "at", 21) == "Acme Corp"
  {
  }

  /** A preposition pattern beats the capitalized-token scan. */
  lemma ExampleInvitationAtAcme()
    ensures CompanyName("Interview invitation at Acme Corp", "") == "Acme Corp"
  {
    AtLeftmostInInvitation();
    CaptureInInvitation();
    TrimKeepsUnspacedText("Acme Corp");
    MatchPrepAt("Interview invitation at Acme Corp", "at", 21);
  }

  /** A text without spaces is its own first word. */
  lemma FirstWordWithoutSpace(s: string)
    requires forall i :: 0 <= i < |s| ==> s[i] != ' '
    ensures FirstWord(s) == s
  {
  }

  /** Without a capital letter anywhere, the first word of the subject is the name. */
  lemma ExampleGreetings()
    ensures CompanyName("greetings", "") == "greetings"
  {
    var s := "greetings";
    assert forall i :: 0 <= i < |s| ==> IsLower(s[i]);
    NoCapitalsMeansFirstWord(s, "");
    FirstWordWithoutSpace(s);
  }

  /** The preposition needs no word boundary before it: "Gre|at C|ompany" yields "Company". */
  lemma ExampleMatchInsideWord()
    ensures CompanyName("Great Company", "") == "Company"
  {
    AtInsideGreat();
    CaptureInGreat();
    TrimKeepsUnspacedText("Company");
    MatchPrepAt("Great Company", "at", 3);
  }

  lemma AtInsideGreat()
    ensures PrepMatchesAt("Great Company", "at", 3)
    ensures forall j :: 0 <= j < 3 ==> !PrepMatchesAt("Great Company", "at", j)
  {
  }

  lemma CaptureInGreat()
    requires PrepMatchesAt("Great Company", "at", 3)
    ensures PrepCapture("Great Company", "at", 3) == "Company"
  {
  }

  lemma NoAtInOfferByBeta()
    ensures MatchPrep("Offer by Beta Labs", "at").None?
  {
    var s := "Offer by Beta Labs";
    assert forall m :: 0 <= m < |s| && s[m] == ' ' ==> m == 5 || m == 8 || m == 13;
    assert s[6..8][0] == 'b' && s[11..13][0] == 't';
  }

  lemma AtLeftmostInMeetUs()
    ensures PrepMatchesAt("Meet us at Acme HQ", "at", 8)
    ensures forall j :: 0 <= j < 8 ==> !PrepMatchesAt("Meet us at Acme HQ", "at", j)
  {
  }

  lemma CaptureInMeetUs()
    requires PrepMatchesAt("Meet us at Acme HQ", "at", 8)
    ensures PrepCapture("Meet us at Acme HQ", "at", 8) == "Acme HQ"
  {
  }

  lemma AtInMeetUs()
    ensures MatchPrep("Meet us at Acme HQ", "at") == Some("Acme HQ")
  {
    AtLeftmostInMeetUs();
    CaptureInMeetUs();
    TrimKeepsUnspacedText("Acme HQ");
    MatchPrepAt("Meet us at Acme HQ", "at", 8);
  }

  /** Pattern order comes before field order: "at" in the body beats "by" in the subject. */
  lemma ExamplePatternOrderFirst()
    ensures CompanyName("Offer by Beta Labs", "Meet us at Acme HQ") == "Acme HQ"
  {
    NoAtInOfferByBeta();
    AtInMeetUs();
  }

  lemma NoPrepositionInAcmeDot()
    ensures PrepositionStrategy("Acme. application", "").None?
  {
    var s := "Acme. application";
    assert forall m :: 0 <= m < |s| && s[m] == ' ' ==> m == 5;
    assert s[3..5][0] == 'e';
    forall k | 0 <= k < 4 ensures NoPrepMatch(s, "", Prepositions[k]) {
      assert |Prepositions[k]| == 2 && Prepositions[k][0] != 'e';
    }
  }

  lemma FirstTokenOfAcmeDot()
    ensures Tokens("Acme. application", 0) != [] && Tokens("Acme. application", 0)[0] == "Acme"
  {
    var s := "Acme. application";
    assert RunEnd(s, 1, InToken) == 5;
    assert !Boundary(s, 5) && Boundary(s, 4);
    assert TokenEndAt(s, 0) == Some(4);
    TokensStep(s, 0, 0, 4);
  }

  /** The greedy token gives back its trailing "." so that `\b` can hold: "Acme." yields "Acme". */
  lemma ExampleBacktrackToBoundary(s: string)
    requires s == "Acme. application"
    ensures CompanyName(s, "") == "Acme"
  {
    NoPrepositionInAcmeDot();
    FirstTokenOfAcmeDot();
    var tokens := Tokens(s, 0);
    assert !IsExcluded("Acme") by {
      assert ToLower("Acme")[0] == 'a';
    }
    assert tokens == ["Acme"] + tokens[1..];
    SurvivorsCons([], "Acme", tokens[1..]);
    assert Candidates(s, "")[0] == "Acme";
  }
}
