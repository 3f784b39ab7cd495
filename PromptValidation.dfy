/** The prompt validator of utils.py: `validar_prompt` rejects a natural-
    language request that is too short once trimmed, or whose lower-cased
    text contains a denylisted keyword anywhere. The application runs it
    before the button-triggered SQL generation. */
module PromptValidation {
  import opened Text

  /** The pair (valido, mensagem) the validator returns. */
  datatype Validation = Validation(valid: bool, message: string)

  const MinLength: nat := 10

  /** Checked in this order; the first hit is the one reported. */
  const Denylist: seq<string> := ["truncate", "drop database", "grant", "revoke"]

  const TooShortMessage: string := "Entrada muito curta. Forneça uma instrução mais detalhada."

  const ForbiddenPrefix: string := "Instrução contém comando proibido: "

  /** The lower-cased prompt contains denylisted keyword number `k`, as an
      unanchored substring ("truncated" and "grantee" contain a keyword). */
  ghost predicate Mentions(prompt: string, k: int)
    requires 0 <= k < |Denylist|
  {
    exists i :: OccursAt(Lower(prompt), Denylist[k], i)
  }

  /** Keyword `k` is the first of the list that the prompt mentions. */
  ghost predicate FirstMentioned(prompt: string, k: int) {
    && 0 <= k < |Denylist|
    && Mentions(prompt, k)
    && forall j :: 0 <= j < k ==> !Mentions(prompt, j)
  }

  /** The index of the first word of `words`, in list order, that occurs in
      `text`. */
  function FirstListedIn(text: string, words: seq<string>): (r: Option<nat>)
    ensures r.Some? ==> r.value < |words| && Contains(text, words[r.value])
    ensures r.Some? ==> forall j :: 0 <= j < r.value ==> !Contains(text, words[j])
    ensures r.None? ==> forall j :: 0 <= j < |words| ==> !Contains(text, words[j])
  {
    if words == [] then None
    else if Contains(text, words[0]) then Some(0)
    else match FirstListedIn(text, words[1..])
      case None => None
      case Some(k) => Some(k + 1)
  }

  /** validar_prompt. The length check comes first, so a short prompt is
      reported as short whatever it contains; there is no upper bound on the
      length. */
  function ValidatePrompt(prompt: string): (v: Validation)
    ensures |Strip(prompt)| < MinLength ==> v == Validation(false, TooShortMessage)
    ensures |Strip(prompt)| >= MinLength ==>
      forall k :: FirstMentioned(prompt, k) ==> v == Validation(false, ForbiddenPrefix + Denylist[k])
    ensures v.valid <==> |Strip(prompt)| >= MinLength && forall k :: 0 <= k < |Denylist| ==> !Mentions(prompt, k)
    ensures v.valid <==> v.message == ""
  {
    if prompt == [] || |Strip(prompt)| < MinLength then Validation(false, TooShortMessage)
    else match FirstListedIn(Lower(prompt), Denylist)
      case Some(k) =>
        FirstMentionedUnique(prompt, k);
        Validation(false, ForbiddenPrefix + Denylist[k])
      case None => Validation(true, "")
  }

  lemma FirstMentionedUnique(prompt: string, k: int)
    requires FirstMentioned(prompt, k)
    ensures forall k' :: FirstMentioned(prompt, k') ==> k' == k
  {
  }

  /** Mentioning a denylisted keyword, in any letter case, is always refused:
      either as too short or by the denylist. */
  lemma MentionIsRefused(prompt: string, k: int)
    requires 0 <= k < |Denylist| && Mentions(prompt, k)
    ensures !ValidatePrompt(prompt).valid
  {
  }

  /** The outcome depends on the prompt only up to letter case. */
  lemma ValidateIgnoresCase(p: string, q: string)
    requires Lower(p) == Lower(q)
    ensures ValidatePrompt(p) == ValidatePrompt(q)
  {
    CaseMapsKeepSpaces();
    StripMapped(LowerChar, p);
    StripMapped(LowerChar, q);
    assert |p| == |q|;
    assert |Strip(p)| == |Strip(Lower(p))| == |Strip(Lower(q))| == |Strip(q)|;
    if |Strip(p)| < MinLength {
      assert ValidatePrompt(p) == Validation(false, TooShortMessage) == ValidatePrompt(q);
    } else {
      assert p != [] && q != [];
      match FirstListedIn(Lower(p), Denylist)
      case None =>
        assert ValidatePrompt(p) == Validation(true, "") == ValidatePrompt(q);
      case Some(k) =>
        assert ValidatePrompt(p) == Validation(false, ForbiddenPrefix + Denylist[k]) == ValidatePrompt(q);
    }
  }

  lemma TooShortScenarios(p: string)
    requires p == "hi" || p == "grant" || p == "   grant all   "
    ensures ValidatePrompt(p) == Validation(false, TooShortMessage)
  {
    if p == "   grant all   " {
      TrimmedSlice(p, 3, 12);
    }
  }

  /** Substring matching also catches longer words. */
  lemma LongerWordIsRefused(p: string)
    requires p == "show the truncated rows"
    ensures ValidatePrompt(p) == Validation(false, ForbiddenPrefix + "truncate")
  {
    TrimmedSlice(p, 0, |p|);
    assert Lower(p)[9..17] == "truncate";
    assert Mentions(p, 0) by { assert OccursAt(Lower(p), Denylist[0], 9); }
  }

  lemma PlainRequestIsAccepted(p: string)
    requires p == "show me all sales plans"
    ensures ValidatePrompt(p) == Validation(true, "")
  {
    PlainRequestFacts(p);
    TrimmedSlice(p, 0, |p|);
    MappedLacks(LowerChar, p, 't', 'T');
    MappedLacks(LowerChar, p, 'd', 'D');
    MappedLacks(LowerChar, p, 'g', 'G');
    MappedLacks(LowerChar, p, 'r', 'R');
    forall k | 0 <= k < |Denylist| ensures !Mentions(p, k) {
      NoOccurrenceWithoutFirstChar(Lower(p), Denylist[k]);
    }
  }

  lemma PlainRequestFacts(p: string)
    requires p == "show me all sales plans"
    ensures |p| >= MinLength && !IsSpace(p[0]) && !IsSpace(p[|p| - 1])
    ensures forall i :: 0 <= i < |p| ==>
      && p[i] != 't' && p[i] != 'T' && p[i] != 'd' && p[i] != 'D'
      && p[i] != 'g' && p[i] != 'G' && p[i] != 'r' && p[i] != 'R'
  {
  }
}
