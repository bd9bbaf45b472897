/** The proactive risk advisories: a fixed keyword-to-advisory table, scanned in definition
    order against the lower-cased question (`RISK_SNIPPETS` and `get_risk_snippets`). */
module Advisory {
  import opened Text

  /** An entry of the advisory table: the lower-case keyword and the advisory shown for it. */
  type Entry = (string, string)

  /** `RISK_SNIPPETS`, in definition order (a Python dict iterates in insertion order). */
  const RiskSnippets: seq<Entry> := [
    ("antibiotics", "Misuse of antibiotics can cause antibiotic resistance."),
    ("vaccines", "Vaccines do not cause autism; extensive research confirms safety."),
    ("ibuprofen", "Long-term/high-dose ibuprofen may harm kidneys or cause stomach bleeding."),
    ("detox", "Your body naturally detoxifies; external detox methods may be harmful."),
    ("fatigue", "Persistent fatigue might indicate underlying health issues."),
    ("vision loss", "Sudden vision loss is a medical emergency—seek immediate help."),
    ("headache", "Sudden severe headache could signal stroke or aneurysm—seek immediate care."),
    ("chest pain", "Chest pain may indicate a heart attack—seek immediate medical help."),
    ("rash", "Rashes with fever or breathing issues may be serious—seek urgent care.")
  ]

  /** Advisories of the entries whose keyword occurs in `text`, in table order
      (the list comprehension's filter). */
  function Matching(text: string, table: seq<Entry>): (r: seq<string>)
    ensures |r| <= |table|
  {
    if table == [] then []
    else
      var last := table[|table| - 1];
      Matching(text, table[..|table| - 1]) + (if Contains(text, last.0) then [last.1] else [])
  }

  /** Positions of the entries whose keyword occurs in `text`, in table order. */
  function HitPositions(text: string, table: seq<Entry>): (r: seq<nat>)
    ensures forall k :: 0 <= k < |r| ==> r[k] < |table|
    ensures forall k, l :: 0 <= k < l < |r| ==> r[k] < r[l]
  {
    if table == [] then []
    else
      var n := |table| - 1;
      HitPositions(text, table[..n]) + (if Contains(text, table[n].0) then [n] else [])
  }

  lemma {:induction false} MatchingAt(text: string, table: seq<Entry>)
    ensures |HitPositions(text, table)| == |Matching(text, table)|
    ensures forall k :: 0 <= k < |HitPositions(text, table)| ==>
              Matching(text, table)[k] == table[HitPositions(text, table)[k]].1
  {
    if table != [] {
      var n := |table| - 1;
      MatchingAt(text, table[..n]);
      var ix := HitPositions(text, table[..n]);
      assert forall k :: 0 <= k < |ix| ==> table[..n][ix[k]] == table[ix[k]];
    }
  }

  lemma {:induction false} HitPositionsExact(text: string, table: seq<Entry>)
    ensures forall i :: 0 <= i < |table| ==>
              (i in HitPositions(text, table) <==> Contains(text, table[i].0))
  {
    if table != [] {
      var n := |table| - 1;
      HitPositionsExact(text, table[..n]);
      var ix := HitPositions(text, table[..n]);
      forall i | 0 <= i < |table|
        ensures i in HitPositions(text, table) <==> Contains(text, table[i].0)
      {
        if i < n {
          assert table[..n][i] == table[i];
          assert i in HitPositions(text, table) <==> i in ix;
        }
      }
    }
  }

  /** `Matching` selects exactly the entries with a keyword hit, each once, in table order:
      its k-th advisory is that of the k-th hit position (whose positions strictly increase, by
      `HitPositions`' contract), and a position is a hit position exactly when its keyword
      occurs. */
  lemma MatchingSelects(text: string, table: seq<Entry>)
    ensures |HitPositions(text, table)| == |Matching(text, table)|
    ensures forall k :: 0 <= k < |HitPositions(text, table)| ==>
              Matching(text, table)[k] == table[HitPositions(text, table)[k]].1
    ensures forall i :: 0 <= i < |table| ==>
              (i in HitPositions(text, table) <==> Contains(text, table[i].0))
  {
    MatchingAt(text, table);
    HitPositionsExact(text, table);
  }

  /** `get_risk_snippets(query)`: no more advisories than table entries, and each advisory
      returned is that of an entry whose keyword occurs in the lower-cased question. */
  function GetRiskSnippets(query: string): (r: seq<string>)
    ensures |r| <= |RiskSnippets|
    ensures forall k :: 0 <= k < |r| ==>
              exists i :: 0 <= i < |RiskSnippets| && RiskSnippets[i].1 == r[k] &&
                          Contains(Lower(query), RiskSnippets[i].0)
  {
    var text := Lower(query);
    MatchingSelects(text, RiskSnippets);
    var ix := HitPositions(text, RiskSnippets);
    assert forall k :: 0 <= k < |ix| ==> ix[k] in ix;
    Matching(text, RiskSnippets)
  }

  /** An advisory is returned exactly when its keyword occurs in the lower-cased question. */
  lemma RiskSnippetsExact(query: string, x: string)
    ensures x in GetRiskSnippets(query) <==>
            exists i :: 0 <= i < |RiskSnippets| && RiskSnippets[i].1 == x &&
                        Contains(Lower(query), RiskSnippets[i].0)
  {
    var text := Lower(query);
    MatchingSelects(text, RiskSnippets);
    var ix := HitPositions(text, RiskSnippets);
    var r := GetRiskSnippets(query);
    if x in r {
      var k :| 0 <= k < |r| && r[k] == x;
      assert ix[k] in ix;
    }
    if exists i :: 0 <= i < |RiskSnippets| && RiskSnippets[i].1 == x && Contains(text, RiskSnippets[i].0) {
      var i :| 0 <= i < |RiskSnippets| && RiskSnippets[i].1 == x && Contains(text, RiskSnippets[i].0);
      var k :| 0 <= k < |ix| && ix[k] == i;
      assert r[k] == x;
    }
  }

  /** `Matching` keeps the table's order: when the keywords of entries `i < j` both occur, the
      advisory of `i` is selected at an earlier position than that of `j`. */
  lemma MatchingInOrder(text: string, table: seq<Entry>, i: nat, j: nat)
    requires i < j < |table| && Contains(text, table[i].0) && Contains(text, table[j].0)
    ensures exists k, l :: 0 <= k < l < |Matching(text, table)| &&
              Matching(text, table)[k] == table[i].1 && Matching(text, table)[l] == table[j].1
  {
    MatchingSelects(text, table);
    var ix := HitPositions(text, table);
    var r := Matching(text, table);
    var k :| 0 <= k < |ix| && ix[k] == i;
    var l :| 0 <= l < |ix| && ix[l] == j;
    assert r[k] == table[i].1 && r[l] == table[j].1;
  }

  /** Advisories keep the table's order: when the keywords of entries `i < j` both occur,
      the advisory of `i` comes before that of `j`. */
  lemma RiskSnippetsInTableOrder(query: string, i: nat, j: nat)
    requires i < j < |RiskSnippets|
    requires Contains(Lower(query), RiskSnippets[i].0) && Contains(Lower(query), RiskSnippets[j].0)
    ensures exists k, l :: 0 <= k < l < |GetRiskSnippets(query)| &&
              GetRiskSnippets(query)[k] == RiskSnippets[i].1 && GetRiskSnippets(query)[l] == RiskSnippets[j].1
  {
    MatchingInOrder(Lower(query), RiskSnippets, i, j);
    assert GetRiskSnippets(query) == Matching(Lower(query), RiskSnippets);
  }

  /** Nothing is selected exactly when no keyword of the table occurs. */
  lemma MatchingNone(text: string, table: seq<Entry>)
    ensures Matching(text, table) == [] <==>
            forall i :: 0 <= i < |table| ==> !Contains(text, table[i].0)
  {
    MatchingSelects(text, table);
    var ix := HitPositions(text, table);
    if ix != [] {
      assert ix[0] in ix;
    }
  }

  /** When exactly one keyword of the table occurs, exactly its advisory is selected. */
  lemma MatchingSingle(text: string, table: seq<Entry>, p: nat)
    requires p < |table| && Contains(text, table[p].0)
    requires forall i :: 0 <= i < |table| && i != p ==> !Contains(text, table[i].0)
    ensures Matching(text, table) == [table[p].1]
  {
    MatchingSelects(text, table);
    var ix := HitPositions(text, table);
    assert p in ix;
    assert forall k :: 0 <= k < |ix| ==> ix[k] in ix;
    assert ix[0] == p && ix[|ix| - 1] == p;
  }

  /** No advisory is shown exactly when no keyword occurs. */
  lemma RiskSnippetsEmpty(query: string)
    ensures GetRiskSnippets(query) == [] <==>
            forall i :: 0 <= i < |RiskSnippets| ==> !Contains(Lower(query), RiskSnippets[i].0)
  {
    MatchingNone(Lower(query), RiskSnippets);
  }

  /** Matching ignores case: the question and its lower-cased form get the same advisories. */
  lemma RiskSnippetsIgnoreCase(query: string)
    ensures GetRiskSnippets(Lower(query)) == GetRiskSnippets(query)
  {
    LowerIdempotent(query);
  }

  /** Every keyword in the table is lower case, so it matches however the question capitalises it. */
  lemma RiskKeywordsLowerCase()
    ensures forall i :: 0 <= i < |RiskSnippets| ==> IsLowerCase(RiskSnippets[i].0)
  {
  }

  /** A question that spells a keyword in lower case always gets that keyword's advisory. */
  lemma RiskSnippetsKeywordHit(query: string, i: nat)
    requires i < |RiskSnippets| && Contains(query, RiskSnippets[i].0)
    ensures RiskSnippets[i].1 in GetRiskSnippets(query)
  {
    RiskKeywordsLowerCase();
    LowerKeepsLowerCasePiece(query, RiskSnippets[i].0);
    RiskSnippetsExact(query, RiskSnippets[i].1);
  }

  /** Example: "Rash?" gets the rash advisory and nothing else. */
  lemma RiskSnippetsRashExample()
    ensures GetRiskSnippets("Rash?") == [RiskSnippets[8].1]
  {
    var text := Lower("Rash?");
    assert text == "rash?";
    assert OccursAt(text, "rash", 0);
    forall i | 0 <= i < 8
      ensures !Contains(text, RiskSnippets[i].0)
    {
      if i == 3 {
        NotContainsMissingChar(text, "detox", 'd');
      } else {
        NotContainsLonger(text, RiskSnippets[i].0);
      }
    }
    MatchingNone(text, RiskSnippets[..8]);
  }

  const IbuprofenQuestion: string := "Can I take " + "Ibuprofen with " + "Aspirin daily?"

  /** The lower-cased ibuprofen question, lower-cased part by part. */
  lemma IbuprofenQuestionLower()
    ensures Lower(IbuprofenQuestion) == IbuprofenText
  {
    LowerAppend("Can I take " + "Ibuprofen with ", "Aspirin daily?");
    LowerAppend("Can I take ", "Ibuprofen with ");
    assert Lower("Can I take ") == "can i take ";
    assert Lower("Ibuprofen with ") == "ibuprofen with ";
    assert Lower("Aspirin daily?") == "aspirin daily?";
  }

  /** The lower-cased ibuprofen question. */
  const IbuprofenText: string := "can i take " + "ibuprofen with " + "aspirin daily?"

  lemma IbuprofenTextHasIbuprofen()
    ensures Contains(IbuprofenText, "ibuprofen")
  {
    assert IbuprofenText[11..20] == "ibuprofen";
    ContainsWitness(IbuprofenText, "ibuprofen", 11);
  }

  /** The vaccines, vision loss, detox and fatigue keywords each need a letter the lower-cased
      question lacks: "v", "x" or "g". */
  lemma IbuprofenTextMissesLetter(i: nat)
    requires i in {1, 3, 4, 5}
    ensures !Contains(IbuprofenText, RiskSnippets[i].0)
  {
    var c := if i == 3 then 'x' else if i == 4 then 'g' else 'v';
    assert c in RiskSnippets[i].0 && c !in IbuprofenText;
    NotContainsMissingChar(IbuprofenText, RiskSnippets[i].0, c);
  }

  /** The antibiotics, headache, chest pain and rash keywords each have two neighbouring letters
      that never stand side by side in the lower-cased question: "nt", "he", "ch" and "ra". */
  lemma IbuprofenTextMissesPair(i: nat)
    requires i in {0, 6, 7, 8}
    ensures !Contains(IbuprofenText, RiskSnippets[i].0)
  {
    NotContainsMissingPair(IbuprofenText, RiskSnippets[i].0, if i == 0 then 1 else 0);
  }

  /** Of the keywords, only "ibuprofen" occurs in the lower-cased ibuprofen question. */
  lemma IbuprofenQuestionHits(i: nat)
    requires i < |RiskSnippets|
    ensures Contains(Lower(IbuprofenQuestion), RiskSnippets[i].0) <==> i == 2
  {
    IbuprofenQuestionLower();
    if i == 2 {
      IbuprofenTextHasIbuprofen();
    } else if i in {1, 3, 4, 5} {
      IbuprofenTextMissesLetter(i);
    } else {
      IbuprofenTextMissesPair(i);
    }
  }

  /** Example: the capitalised "Ibuprofen" still triggers the ibuprofen advisory, and it is the
      only advisory: the table has no entry for aspirin. */
  lemma RiskSnippetsIbuprofenExample()
    ensures GetRiskSnippets(IbuprofenQuestion) == [RiskSnippets[2].1]
  {
    forall i | 0 <= i < |RiskSnippets|
      ensures Contains(Lower(IbuprofenQuestion), RiskSnippets[i].0) <==> i == 2
    {
      IbuprofenQuestionHits(i);
    }
    MatchingSingle(Lower(IbuprofenQuestion), RiskSnippets, 2);
  }
}
