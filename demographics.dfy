/** The demographic prefix the sidebar's age and gender add to the question before it is
    searched and answered. */
module Demographics {
  import opened Text

  /** The gender selectbox's default option. */
  const DefaultGender: string := "Prefer not to say"

  const PrefixStart: string := "For a "
  const AgeSuffix: string := "-year-old "

  /** The `demographics` prefix: empty exactly when no age was typed and the gender was left at
      its default; otherwise the clause `For a {age}-year-old {gender.lower()}, `. */
  function Prefix(age: string, gender: string): (r: string)
    ensures r == "" <==> age == "" && gender == DefaultGender
    ensures r != "" ==> r == PrefixStart + age + AgeSuffix + Lower(gender) + ", "
  {
    if age != "" || gender != DefaultGender then PrefixStart + age + AgeSuffix + Lower(gender) + ", "
    else ""
  }

  /** `full_query = demographics + question`: the question is always its tail. */
  function FullQuery(age: string, gender: string, question: string): (r: string)
    ensures |r| >= |question| && r[|r| - |question|..] == question
  {
    var p := Prefix(age, gender);
    assert (p + question)[|p|..] == question;
    p + question
  }

  /** The full query always ends with the question, and it is the question unchanged exactly
      when no demographics were given. */
  lemma FullQueryEndsWithQuestion(age: string, gender: string, question: string)
    ensures var q := FullQuery(age, gender, question);
            && |q| >= |question| && q[|q| - |question|..] == question
            && (q == question <==> age == "" && gender == DefaultGender)
  {
    var p := Prefix(age, gender);
    var q := p + question;
    assert q[|p|..] == question;
    assert q == question <==> p == "";
  }

  /** A non-empty prefix mentions the age as typed and the gender in lower case. */
  lemma PrefixMentions(age: string, gender: string)
    requires age != "" || gender != DefaultGender
    ensures Contains(Prefix(age, gender), age) && Contains(Prefix(age, gender), Lower(gender))
  {
    var g := Lower(gender);
    var p := Prefix(age, gender);
    assert p == PrefixStart + age + (AgeSuffix + g + ", ");
    ContainsMiddle(PrefixStart, age, AgeSuffix + g + ", ");
    assert p == (PrefixStart + age + AgeSuffix) + g + ", ";
    ContainsMiddle(PrefixStart + age + AgeSuffix, g, ", ");
  }

  /** So the full query mentions them too. */
  lemma FullQueryMentions(age: string, gender: string, question: string)
    requires age != "" || gender != DefaultGender
    ensures Contains(FullQuery(age, gender, question), age)
    ensures Contains(FullQuery(age, gender, question), Lower(gender))
  {
    var p := Prefix(age, gender);
    PrefixMentions(age, gender);
    ContainsAppended(p, question, age);
    ContainsAppended(p, question, Lower(gender));
  }

  /** Example: age "34" and gender "Male" give the prefix "For a 34-year-old male, ". */
  lemma PrefixExample()
    ensures Prefix("34", "Male") == "For a 34-year-old male, "
  {
    var g := Lower("Male");
    assert g == "male" by {
      assert g[0] == LowerChar('M') && g[1] == 'a' && g[2] == 'l' && g[3] == 'e';
    }
  }

  /** Example: with age "34" and gender "Male", "What causes headaches?" becomes
      "For a 34-year-old male, What causes headaches?"; so does any other question. */
  lemma FullQueryExample(question: string)
    ensures FullQuery("34", "Male", question) == "For a 34-year-old male, " + question
  {
    PrefixExample();
  }

  /** Example: no age and the default gender leave the question as it is. */
  lemma FullQueryDefaultExample()
    ensures FullQuery("", DefaultGender, "What causes headaches?") == "What causes headaches?"
  {
  }
}
