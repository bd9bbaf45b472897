/** The severity indicator: ordered keyword groups, highest priority first, scanned against
    the lower-cased question; the first group with a hit names the level
    (`SEVERITY_KEYWORDS` and `classify_severity`). */
module Severity {
  import opened Text

  const ImmediateLabel: string := "🔴 Immediate"
  const UrgentLabel: string := "🟠 Urgent"
  const RoutineLabel: string := "🟢 Routine"

  const ImmediateKeywords: seq<string> :=
    ["chest pain", "vision loss", "stroke", "aneurysm", "sudden severe headache"]
  const UrgentKeywords: seq<string> :=
    ["high fever", "severe pain", "persistent vomiting", "unusual rash", "dizziness"]

  /** A severity group: its label and its keywords. */
  type Group = (string, seq<string>)

  /** `SEVERITY_KEYWORDS` in definition order; the Routine group has no keywords. */
  const SeverityKeywords: seq<Group> :=
    [(ImmediateLabel, ImmediateKeywords), (UrgentLabel, UrgentKeywords), (RoutineLabel, [])]

  /** `any(keyword in text for keyword in keywords)`. */
  predicate AnyKeyword(text: string, keywords: seq<string>)
    ensures AnyKeyword(text, keywords) ==> keywords != []
    ensures (exists k :: 0 <= k < |keywords| && keywords[k] == []) ==> AnyKeyword(text, keywords)
  {
    exists k :: 0 <= k < |keywords| && Contains(text, keywords[k])
  }

  /** The label of the first group with a keyword hit, or `default` when none has one. */
  function FirstHit(text: string, groups: seq<Group>, default: string): (r: string)
    ensures r == default || exists g :: g in groups && r == g.0
  {
    if groups == [] then default
    else if AnyKeyword(text, groups[0].1) then groups[0].0
    else FirstHit(text, groups[1..], default)
  }

  /** The level `classify_severity(query)` returns: always one of the three labels. */
  function SeverityOf(query: string): (r: string)
    ensures r in {ImmediateLabel, UrgentLabel, RoutineLabel}
  {
    FirstHit(Lower(query), SeverityKeywords, RoutineLabel)
  }

  /** `classify_severity(query)`: the loop over the groups with its early return. The level is
      Immediate exactly when an Immediate keyword occurs (whatever Urgent keywords occur too),
      Urgent exactly when no Immediate but some Urgent keyword occurs, and Routine otherwise. */
  method ClassifySeverity(query: string) returns (level: string)
    ensures level == SeverityOf(query)
    ensures level == ImmediateLabel <==> AnyKeyword(Lower(query), ImmediateKeywords)
    ensures level == UrgentLabel <==>
              !AnyKeyword(Lower(query), ImmediateKeywords) && AnyKeyword(Lower(query), UrgentKeywords)
    ensures level == RoutineLabel <==>
              !AnyKeyword(Lower(query), ImmediateKeywords) && !AnyKeyword(Lower(query), UrgentKeywords)
  {
    var text := Lower(query);
    var i := 0;
    while i < |SeverityKeywords|
      invariant 0 <= i <= |SeverityKeywords|
      invariant forall g :: 0 <= g < i ==> !AnyKeyword(text, SeverityKeywords[g].1)
      invariant FirstHit(text, SeverityKeywords[i..], RoutineLabel) == SeverityOf(query)
    {
      var group := SeverityKeywords[i];
      if AnyKeyword(text, group.1) {
        assert i < 2;
        return group.0;
      }
      assert SeverityKeywords[i..][1..] == SeverityKeywords[i + 1..];
      i := i + 1;
    }
    return RoutineLabel;
  }

  /** The priority rule in terms of the keyword groups: Immediate whenever an Immediate keyword
      occurs, else Urgent whenever an Urgent keyword occurs, else Routine. */
  lemma {:induction false} SeverityOfPriority(query: string)
    ensures AnyKeyword(Lower(query), ImmediateKeywords) ==> SeverityOf(query) == ImmediateLabel
    ensures (!AnyKeyword(Lower(query), ImmediateKeywords) && AnyKeyword(Lower(query), UrgentKeywords))
              ==> SeverityOf(query) == UrgentLabel
    ensures (!AnyKeyword(Lower(query), ImmediateKeywords) && !AnyKeyword(Lower(query), UrgentKeywords))
              ==> SeverityOf(query) == RoutineLabel
  {
    var text := Lower(query);
    var rest := SeverityKeywords[1..];
    assert rest == [(UrgentLabel, UrgentKeywords), (RoutineLabel, [])];
    assert rest[1..] == [(RoutineLabel, [])];
    assert rest[1..][1..] == [];
    assert !AnyKeyword(text, rest[1..][0].1);
    assert FirstHit(text, rest[1..], RoutineLabel) == RoutineLabel;
    assert FirstHit(text, rest, RoutineLabel) ==
      if AnyKeyword(text, UrgentKeywords) then UrgentLabel else FirstHit(text, rest[1..], RoutineLabel);
    assert SeverityKeywords[0] == (ImmediateLabel, ImmediateKeywords);
    assert SeverityOf(query) ==
      if AnyKeyword(text, ImmediateKeywords) then ImmediateLabel else FirstHit(text, rest, RoutineLabel);
  }

  /** The level is always one of the three labels (the empty Routine group never has a hit,
      so it is the default that yields Routine). */
  lemma SeverityOfIsLabel(query: string)
    ensures SeverityOf(query) in {ImmediateLabel, UrgentLabel, RoutineLabel}
    ensures !AnyKeyword(Lower(query), SeverityKeywords[2].1)
  {
    SeverityOfPriority(query);
  }

  /** The level ignores case. */
  lemma SeverityIgnoresCase(query: string)
    ensures SeverityOf(Lower(query)) == SeverityOf(query)
  {
    LowerIdempotent(query);
  }

  /** Example: "chest pain" (Immediate) beats "dizziness" (Urgent). */
  lemma SeverityChestPainExample()
    ensures SeverityOf("I have chest pain and dizziness") == ImmediateLabel
  {
    var query := "I have chest pain and dizziness";
    var text := Lower(query);
    assert text[7..17] == "chest pain" by {
      forall m | 7 <= m < 17
        ensures text[m] == "chest pain"[m - 7]
      {
        assert text[m] == LowerChar(query[m]);
      }
    }
    ContainsWitness(text, "chest pain", 7);
    assert AnyKeyword(text, ImmediateKeywords) by {
      assert Contains(text, ImmediateKeywords[0]);
    }
    SeverityOfPriority("I have chest pain and dizziness");
  }

  /** Example: "Dizziness" alone is Urgent. */
  lemma SeverityDizzinessExample()
    ensures SeverityOf("Dizziness") == UrgentLabel
  {
    var text := Lower("Dizziness");
    assert text == "dizziness";
    assert OccursAt(text, UrgentKeywords[4], 0);
    forall k | 0 <= k < |ImmediateKeywords|
      ensures !Contains(text, ImmediateKeywords[k])
    {
      if k == 2 {
        NotContainsMissingChar(text, "stroke", 't');
      } else if k == 3 {
        NotContainsMissingChar(text, "aneurysm", 'a');
      } else {
        NotContainsLonger(text, ImmediateKeywords[k]);
      }
    }
    SeverityOfPriority("Dizziness");
  }

  /** Example: a question without any keyword is Routine. */
  lemma SeverityRoutineExample()
    ensures SeverityOf("Hi") == RoutineLabel
  {
    var text := Lower("Hi");
    forall k | 0 <= k < 5
      ensures !Contains(text, ImmediateKeywords[k]) && !Contains(text, UrgentKeywords[k])
    {
      NotContainsLonger(text, ImmediateKeywords[k]);
      NotContainsLonger(text, UrgentKeywords[k]);
    }
    SeverityOfPriority("Hi");
  }
}
