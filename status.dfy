/**
 * Status classification: a first-match keyword cascade over the lower-cased text
 * `subject + " " + body`.
 */
module Status {
  import opened Text

  datatype Status = Applied | Interview | Rejected | Assessment | Update

  /** Mentions a rejection: "unfortunately", "unsuccessful" or "regret". */
  predicate MentionsRejection(content: string)
  {
    Contains(content, "unfortunately") || Contains(content, "unsuccessful") || Contains(content, "regret")
  }

  /** The if-chain over already lower-cased content. */
  function StatusOfContent(content: string): Status
  {
    if Contains(content, "interview") then Interview
    else if MentionsRejection(content) then Rejected
    else if Contains(content, "assessment") then Assessment
    else if Contains(content, "update") then Update
    else Applied
  }

  /** The status of a message with this subject and decoded body. */
  function Classify(subject: string, body: string): Status
  {
    StatusOfContent(ToLower(subject + " " + body))
  }

  /**
   * Each status is chosen exactly when its keyword rule is the first rule that fires, in the order
   * interview, rejection words, assessment, update.
   */
  lemma ClassifyRules(subject: string, body: string)
    ensures var content := ToLower(subject + " " + body);
      && (Classify(subject, body) == Interview <==> Contains(content, "interview"))
      && (Classify(subject, body) == Rejected <==> !Contains(content, "interview") && MentionsRejection(content))
      && (Classify(subject, body) == Assessment <==>
            !Contains(content, "interview") && !MentionsRejection(content) && Contains(content, "assessment"))
      && (Classify(subject, body) == Update <==>
            !Contains(content, "interview") && !MentionsRejection(content) && !Contains(content, "assessment")
            && Contains(content, "update"))
      && (Classify(subject, body) == Applied <==>
            !Contains(content, "interview") && !MentionsRejection(content) && !Contains(content, "assessment")
            && !Contains(content, "update"))
  {
  }

  /** Changing the case of letters in the subject or the body never changes the status. */
  lemma {:induction false} ClassifyIgnoresCase(subject: string, body: string, subject': string, body': string)
    requires ToLower(subject) == ToLower(subject') && ToLower(body) == ToLower(body')
    ensures Classify(subject, body) == Classify(subject', body')
  {
    assert ToLower(subject + " " + body) == ToLower(subject' + " " + body') by {
      ToLowerAppend(subject + " ", body);
      ToLowerAppend(subject, " ");
      ToLowerAppend(subject' + " ", body');
      ToLowerAppend(subject', " ");
    }
  }

  /** In particular, classifying lower-cased text gives the same status. */
  lemma ClassifyLowered(subject: string, body: string)
    ensures Classify(ToLower(subject), ToLower(body)) == Classify(subject, body)
  {
    ToLowerIdempotent(subject);
    ToLowerIdempotent(body);
    ClassifyIgnoresCase(ToLower(subject), ToLower(body), subject, body);
  }

  /** A word of an earlier rule shadows the later ones: "interview" wins over "regret". */
  lemma InterviewShadowsRejection(subject: string, body: string)
    requires Contains(ToLower(subject + " " + body), "interview")
    ensures Classify(subject, body) == Interview
  {
  }

  /** Matching is on substrings, not words: "Regretfully" marks a rejection. */
  lemma SubstringMatch()
    ensures Classify("Regretfully", "") == Rejected
  {
    var content := ToLower("Regretfully" + " " + "");
    assert content == "regretfully ";
    assert OccursAt(content, "regret", 0);
    forall i | 0 <= i <= |content| - 9 ensures !OccursAt(content, "interview", i) {
      assert content[i..i + 9][0] == content[i];
    }
    assert !Contains(content, "interview");
  }
}
