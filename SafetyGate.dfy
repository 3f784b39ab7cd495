/** The SQL safety gate of models.py: `verifica_comando_perigoso` decides
    whether a generated statement may be executed, from its first word and
    from whether `WHERE` appears anywhere in it. The caller runs the statement
    only when the verdict is `permitted` (app_gscript.py:54). */
module SafetyGate {
  import opened Text

  /** The pair (permitido, aviso) the classifier returns. */
  datatype Verdict = Verdict(permitted: bool, annotation: string)

  const GuardedCommands: seq<string> := ["DELETE", "UPDATE", "DROP"]

  const MissingWhereWarning: string := "-- ⚠️ Atenção: comando perigoso sem cláusula WHERE!"

  const ReviewWhereCaution: string := "-- ⚠️ Verifique cuidadosamente a cláusula WHERE!"

  /** The statement's first whitespace-separated word, upper-cased, is one of
      the guarded commands; "DELETE;" or "DROP(" as a first word is not. */
  ghost predicate Guarded(sql: string) {
    exists w :: IsFirstWord(sql, w) && Upper(w) in GuardedCommands
  }

  /** `WHERE` occurs anywhere in the upper-cased statement: in a clause, a
      string literal, a comment or inside a longer word alike. */
  ghost predicate MentionsWhere(sql: string) {
    exists i :: OccursAt(Upper(sql), "WHERE", i)
  }

  /** verifica_comando_perigoso. A blank statement has no first word (Python
      raises IndexError), hence the precondition. */
  function Classify(sql: string): (v: Verdict)
    requires !AllSpace(sql)
    ensures Guarded(sql) && !MentionsWhere(sql) ==> v == Verdict(false, MissingWhereWarning)
    ensures Guarded(sql) && MentionsWhere(sql) ==> v == Verdict(true, ReviewWhereCaution)
    ensures !Guarded(sql) ==> v == Verdict(true, "")
  {
    var command := Upper(FirstWord(sql));
    GuardedByFirstWord(sql);
    if command in GuardedCommands then
      if !Contains(Upper(sql), "WHERE") then Verdict(false, MissingWhereWarning)
      else Verdict(true, ReviewWhereCaution)
    else Verdict(true, "")
  }

  lemma GuardedByFirstWord(sql: string)
    requires !AllSpace(sql)
    ensures Guarded(sql) <==> Upper(FirstWord(sql)) in GuardedCommands
  {
    forall w | IsFirstWord(sql, w) ensures w == FirstWord(sql) {
      FirstWordUnique(sql, w, FirstWord(sql));
    }
  }

  /** Execution is refused only for a guarded command that never mentions
      `WHERE`; a refusal always carries the warning, a permission never does. */
  lemma BlockedExactly(sql: string)
    requires !AllSpace(sql)
    ensures !Classify(sql).permitted <==> Guarded(sql) && !MentionsWhere(sql)
    ensures !Classify(sql).permitted <==> Classify(sql).annotation == MissingWhereWarning
  {
  }

  /** The verdict depends on the statement only up to letter case. */
  lemma ClassifyIgnoresCase(s: string, t: string)
    requires !AllSpace(s) && Upper(s) == Upper(t)
    ensures !AllSpace(t) && Classify(s) == Classify(t)
  {
    CaseMapsKeepSpaces();
    FirstWordMapped(UpperChar, s);
    assert |s| == |t|;
    assert !AllSpace(t) by {
      var i :| 0 <= i < |s| && !IsSpace(s[i]);
      assert !IsSpace(Upper(s)[i]) && Upper(s)[i] == Upper(t)[i];
    }
    FirstWordMapped(UpperChar, t);
  }

  /** Whitespace before the statement does not change the verdict. */
  lemma ClassifyIgnoresLeadingSpace(ws: string, sql: string)
    requires AllSpace(ws) && !AllSpace(sql)
    ensures !AllSpace(ws + sql) && Classify(ws + sql) == Classify(sql)
  {
    FirstWordAfterSpaces(ws, sql);
    CaseMapsKeepSpaces();
    MappedConcat(UpperChar, ws, sql);
    MappedAllSpace(UpperChar, ws);
    ContainsAfterSpaces(Upper(ws), Upper(sql), "WHERE");
    assert Upper(FirstWord(ws + sql)) == Upper(FirstWord(sql));
    assert Contains(Upper(ws + sql), "WHERE") == Contains(Upper(sql), "WHERE");
  }

  /** The verdict read off a first word found at `a`. */
  lemma VerdictByFirstWord(sql: string, a: int, w: string)
    requires WordAt(sql, a, w) && AllSpace(sql[..a])
    ensures !AllSpace(sql)
    ensures Upper(w) !in GuardedCommands ==> Classify(sql) == Verdict(true, "")
    ensures Upper(w) in GuardedCommands && !Contains(Upper(sql), "WHERE") ==>
      Classify(sql) == Verdict(false, MissingWhereWarning)
    ensures Upper(w) in GuardedCommands && Contains(Upper(sql), "WHERE") ==>
      Classify(sql) == Verdict(true, ReviewWhereCaution)
  {
    FirstWordIs(sql, a, w);
  }

  /** Typical statements: an unguarded DELETE is blocked, an
      UPDATE with a WHERE clause passes with a caution, a SELECT passes. */
  lemma DeleteWithoutWhereIsBlocked(sql: string)
    requires sql == "DELETE FROM users;"
    ensures !AllSpace(sql) && Classify(sql) == Verdict(false, MissingWhereWarning)
  {
    DeleteText(sql);
    VerdictByFirstWord(sql, 0, "DELETE");
    MappedLacks(UpperChar, sql, 'W', 'w');
    NoOccurrenceWithoutFirstChar(Upper(sql), "WHERE");
  }

  lemma DeleteText(sql: string)
    requires sql == "DELETE FROM users;"
    ensures sql[0..6] == "DELETE" && IsSpace(sql[6])
    ensures forall i :: 0 <= i < |sql| ==> sql[i] != 'W' && sql[i] != 'w'
    ensures Upper("DELETE") == "DELETE"
  {
    assert sql[0..6] == "DELETE";
    UpperOfUpper("DELETE");
  }

  lemma UpdateWithWhereIsCautioned(sql: string)
    requires sql == "UPDATE users SET active=1 WHERE id=5;"
    ensures !AllSpace(sql) && Classify(sql) == Verdict(true, ReviewWhereCaution)
  {
    UpdateText(sql);
    VerdictByFirstWord(sql, 0, "UPDATE");
    MappedOccurs(UpperChar, sql, "WHERE", 26);
  }

  lemma UpdateText(sql: string)
    requires sql == "UPDATE users SET active=1 WHERE id=5;"
    ensures sql[0..6] == "UPDATE" && IsSpace(sql[6]) && OccursAt(sql, "WHERE", 26)
    ensures Upper("UPDATE") == "UPDATE" && Upper("WHERE") == "WHERE"
  {
    assert sql[0..6] == "UPDATE";
    assert sql[26..31] == "WHERE";
    UpperOfUpper("UPDATE");
    UpperOfUpper("WHERE");
  }

  lemma SelectPasses(sql: string)
    requires sql == "SELECT * FROM orders;"
    ensures !AllSpace(sql) && Classify(sql) == Verdict(true, "")
  {
    SelectText(sql);
    VerdictByFirstWord(sql, 0, "SELECT");
  }

  lemma SelectText(sql: string)
    requires sql == "SELECT * FROM orders;"
    ensures sql[0..6] == "SELECT" && IsSpace(sql[6]) && Upper("SELECT") == "SELECT"
  {
    assert sql[0..6] == "SELECT";
    UpperOfUpper("SELECT");
  }

  /** Matching is on the whole first word, so punctuation glued to the
      command makes it unguarded. */
  lemma GluedPunctuationIsUnguarded(sql: string)
    requires sql == "DELETE;" || sql == "drop(table)"
    ensures !AllSpace(sql) && Classify(sql) == Verdict(true, "")
  {
    GluedText(sql);
    VerdictByFirstWord(sql, 0, sql);
  }

  lemma GluedText(sql: string)
    requires sql == "DELETE;" || sql == "drop(table)"
    ensures sql[0..|sql|] == sql && forall i :: 0 <= i < |sql| ==> !IsSpace(sql[i])
    ensures Upper(sql) == "DELETE;" || Upper(sql) == "DROP(TABLE)"
  {
  }

  /** A `WHERE` inside another word or a comment is enough to let a guarded
      command through. */
  lemma HiddenWhereLetsThrough(sql: string)
    requires sql == "delete from logs -- nowhere"
    ensures !AllSpace(sql) && Classify(sql) == Verdict(true, ReviewWhereCaution)
  {
    HiddenWhereText(sql);
    VerdictByFirstWord(sql, 0, "delete");
    MappedOccurs(UpperChar, sql, "where", 22);
  }

  lemma HiddenWhereText(sql: string)
    requires sql == "delete from logs -- nowhere"
    ensures sql[0..6] == "delete" && IsSpace(sql[6]) && OccursAt(sql, "where", 22)
    ensures Upper("delete") == "DELETE" && Upper("where") == "WHERE"
  {
    assert sql[0..6] == "delete";
    assert sql[22..27] == "where";
  }

  /** Only ASCII whitespace separates words in this model, so a no-break
      space between the command and the rest of the statement leaves one
      unguarded first word. Python's split() would break the word there and
      block the statement. */
  lemma NonAsciiSpaceIsUnguarded(sql: string)
    requires sql == "DELETE\U{00A0}FROM t"
    ensures !AllSpace(sql) && Classify(sql) == Verdict(true, "")
  {
    NonAsciiSpaceText(sql);
    VerdictByFirstWord(sql, 0, "DELETE\U{00A0}FROM");
  }

  lemma NonAsciiSpaceText(sql: string)
    requires sql == "DELETE\U{00A0}FROM t"
    ensures sql[0..11] == "DELETE\U{00A0}FROM" && IsSpace(sql[11])
    ensures Upper("DELETE\U{00A0}FROM") == "DELETE\U{00A0}FROM"
  {
    assert sql[0..11] == "DELETE\U{00A0}FROM";
    UpperOfUpper("DELETE\U{00A0}FROM");
  }
}
