/** What `get_medical_snippets` does with the search backend's reply: put results from nhs.uk
    first (`items.sort(key=...)`, a stable sort), project each result to a
    (title, link, snippet) triple, and return `[]` whenever anything fails. The HTTP request
    and the JSON decoding are not modelled; their outcome is an input. */
module Search {
  import opened Text
  import opened Wrappers

  /** A decoded result item: a JSON object whose fields are strings. */
  type Item = map<string, string>

  /** A source snippet `(title, link, snippet)`. */
  datatype Snippet = Snippet(title: string, link: string, text: string)

  /** The outcome of the search request: `Unavailable` for a raised request, a non-2xx status, a
      body that is not JSON, or JSON that is not an object (so `.get` raises); otherwise the
      body's `items` field, `None` when it is absent. */
  datatype SearchResponse = Unavailable | Decoded(items: Option<seq<Item>>)

  /** The host marker that puts a result first. */
  const PreferredDomain: string := "nhs.uk"

  /** `item.get(key, default)`. */
  function Get(item: Item, key: string, default: string): (r: string)
    ensures key in item ==> r == item[key]
    ensures key !in item ==> r == default
    ensures r == default || r in item.Values
  {
    if key in item then item[key] else default
  }

  /** The result's link mentions nhs.uk. */
  predicate IsNhs(item: Item)
    ensures IsNhs(item) ==> "link" in item
  {
    Contains(Get(item, "link", ""), PreferredDomain)
  }

  /** The sort key `0 if "nhs.uk" in x.get("link", "") else 1`. */
  function SortKey(item: Item): (r: nat)
    ensures r <= 1
    ensures r == 0 <==> IsNhs(item)
  {
    if IsNhs(item) then 0 else 1
  }

  /** The items of `items` whose `IsNhs` equals `nhs`, in their original order. */
  function Group(items: seq<Item>, nhs: bool): (r: seq<Item>)
    ensures |r| <= |items|
    ensures forall k :: 0 <= k < |r| ==> IsNhs(r[k]) == nhs
  {
    if items == [] then []
    else
      var last := items[|items| - 1];
      Group(items[..|items| - 1], nhs) + (if IsNhs(last) == nhs then [last] else [])
  }

  /** The result of the stable sort by `SortKey`: the nhs.uk items, then the others. It keeps
      the length, and position `k` holds an nhs.uk item exactly when `k` lies within the first
      `|Group(items, true)|` positions. */
  function NhsFirst(items: seq<Item>): (r: seq<Item>)
    ensures |r| == |items|
    ensures forall k :: 0 <= k < |r| ==> (IsNhs(r[k]) <==> k < |Group(items, true)|)
  {
    GroupsLength(items);
    var nhs, rest := Group(items, true), Group(items, false);
    assert forall k :: |nhs| <= k < |nhs + rest| ==> (nhs + rest)[k] == rest[k - |nhs|];
    nhs + rest
  }

  /** Ordered by the sort key: no nhs.uk item after another item. */
  predicate SortedByKey(items: seq<Item>)
  {
    forall i, j :: 0 <= i < j < |items| ==> SortKey(items[i]) <= SortKey(items[j])
  }

  lemma {:induction false} GroupAppend(a: seq<Item>, b: seq<Item>, nhs: bool)
    ensures Group(a + b, nhs) == Group(a, nhs) + Group(b, nhs)
  {
    if b != [] {
      var b' := b[..|b| - 1];
      assert (a + b)[..|a + b| - 1] == a + b';
      GroupAppend(a, b', nhs);
    } else {
      assert a + b == a;
    }
  }

  /** Selecting a group of a group: all of it or nothing. */
  lemma {:induction false} GroupOfGroup(items: seq<Item>, nhs: bool, other: bool)
    ensures Group(Group(items, nhs), other) == if nhs == other then Group(items, nhs) else []
  {
    if items != [] {
      var front := items[..|items| - 1];
      var last := items[|items| - 1];
      GroupOfGroup(front, nhs, other);
      GroupAppend(Group(front, nhs), if IsNhs(last) == nhs then [last] else [], other);
      if IsNhs(last) == nhs {
        assert [last][..0] == [];
      }
    }
  }

  /** The two groups together are as long as the input. */
  lemma {:induction false} GroupsLength(items: seq<Item>)
    ensures |Group(items, true)| + |Group(items, false)| == |items|
  {
    if items != [] {
      GroupsLength(items[..|items| - 1]);
    }
  }

  /** The two groups hold exactly the items of the input. */
  lemma {:induction false} GroupsPartition(items: seq<Item>)
    ensures multiset(Group(items, true)) + multiset(Group(items, false)) == multiset(items)
  {
    if items != [] {
      var front := items[..|items| - 1];
      GroupsPartition(front);
      assert items == front + [items[|items| - 1]];
    }
  }

  /** The sort returns a permutation of its input. */
  lemma NhsFirstPermutation(items: seq<Item>)
    ensures multiset(NhsFirst(items)) == multiset(items)
  {
    GroupsPartition(items);
  }

  /** Every nhs.uk item precedes every other item. */
  lemma NhsFirstSorted(items: seq<Item>)
    ensures SortedByKey(NhsFirst(items))
  {
    var r := NhsFirst(items);
    var n := |Group(items, true)|;
    forall i, j | 0 <= i < j < |r|
      ensures SortKey(r[i]) <= SortKey(r[j])
    {
      if j < n {
        assert r[i] == Group(items, true)[i] && r[j] == Group(items, true)[j];
      } else if i >= n {
        assert r[i] == Group(items, false)[i - n] && r[j] == Group(items, false)[j - n];
      } else {
        assert r[i] == Group(items, true)[i];
      }
    }
  }

  /** The sort is stable: within each group the relative order of the input is kept. */
  lemma NhsFirstStable(items: seq<Item>, nhs: bool)
    ensures Group(NhsFirst(items), nhs) == Group(items, nhs)
  {
    GroupAppend(Group(items, true), Group(items, false), nhs);
    GroupOfGroup(items, true, nhs);
    GroupOfGroup(items, false, nhs);
  }

  /** A sequence ordered by the key is its nhs.uk group followed by the rest. */
  lemma {:induction false} SortedIsGroups(t: seq<Item>)
    requires SortedByKey(t)
    ensures t == Group(t, true) + Group(t, false)
  {
    if t != [] {
      var front := t[..|t| - 1];
      var last := t[|t| - 1];
      assert SortedByKey(front);
      SortedIsGroups(front);
      if IsNhs(last) {
        assert forall k :: 0 <= k < |front| ==> SortKey(front[k]) <= SortKey(last) && front[k] == t[k];
      }
    }
  }

  /** `NhsFirst` is the only stable sort by the key: a sequence that is ordered by the key and
      keeps each group of `items` in order is `NhsFirst(items)`. So the model agrees with
      Python's `list.sort`, whatever stable algorithm runs it. */
  lemma StableSortIsNhsFirst(items: seq<Item>, t: seq<Item>)
    requires SortedByKey(t)
    requires Group(t, true) == Group(items, true) && Group(t, false) == Group(items, false)
    ensures t == NhsFirst(items)
  {
    SortedIsGroups(t);
  }

  /** Extending a prefix by one item extends its group by that item or by nothing. */
  lemma GroupExtend(s: seq<Item>, i: nat, nhs: bool)
    requires i < |s|
    ensures Group(s[..i + 1], nhs) == Group(s[..i], nhs) + (if IsNhs(s[i]) == nhs then [s[i]] else [])
  {
    assert s[..i + 1][..i] == s[..i];
  }

  /** The first pass of the sort: the two groups of the array's items, in order. */
  method SplitByKey(a: array<Item>) returns (nhs: seq<Item>, rest: seq<Item>)
    ensures nhs == Group(a[..], true) && rest == Group(a[..], false)
  {
    nhs, rest := [], [];
    var i := 0;
    while i < a.Length
      invariant 0 <= i <= a.Length
      invariant nhs == Group(a[..i], true) && rest == Group(a[..i], false)
    {
      GroupExtend(a[..], i, true);
      GroupExtend(a[..], i, false);
      assert a[..][..i + 1] == a[..i + 1] && a[..][..i] == a[..i] && a[..][i] == a[i];
      if IsNhs(a[i]) {
        nhs := nhs + [a[i]];
      } else {
        rest := rest + [a[i]];
      }
      i := i + 1;
    }
    assert a[..a.Length] == a[..];
  }

  /** The second pass: write `s` into the array. */
  method Overwrite(a: array<Item>, s: seq<Item>)
    requires |s| == a.Length
    modifies a
    ensures a[..] == s
  {
    var i := 0;
    while i < a.Length
      invariant 0 <= i <= a.Length
      invariant forall k :: 0 <= k < i ==> a[k] == s[k]
    {
      a[i] := s[i];
      i := i + 1;
    }
  }

  /** `items.sort(key=...)` on the list in place, as a stable two-pass partition. */
  method SortNhsFirst(a: array<Item>)
    modifies a
    ensures a[..] == NhsFirst(old(a[..]))
  {
    var nhs, rest := SplitByKey(a);
    assert |NhsFirst(a[..])| == a.Length;
    Overwrite(a, nhs + rest);
  }

  /** A result item with the given title and link and an empty snippet. */
  function ExampleItem(title: string, link: string): Item
  {
    map["title" := title, "link" := link, "snippet" := ""]
  }

  lemma ExampleItemLink(title: string, link: string)
    ensures Get(ExampleItem(title, link), "link", "") == link
  {
    assert "link" in ExampleItem(title, link);
  }

  const ExampleA: Item := ExampleItem("A", "nhs.uk/a")
  const ExampleB: Item := ExampleItem("B", "cdc.gov/b")
  const ExampleC: Item := ExampleItem("C", "who.int/c")

  lemma ExampleANhs()
    ensures IsNhs(ExampleA)
  {
    ExampleItemLink("A", "nhs.uk/a");
    assert "nhs.uk/a"[0..6] == PreferredDomain;
    ContainsWitness("nhs.uk/a", PreferredDomain, 0);
  }

  lemma ExampleBNotNhs()
    ensures !IsNhs(ExampleB)
  {
    ExampleItemLink("B", "cdc.gov/b");
    NotContainsMissingChar("cdc.gov/b", PreferredDomain, 'k');
  }

  lemma ExampleCNotNhs()
    ensures !IsNhs(ExampleC)
  {
    ExampleItemLink("C", "who.int/c");
    NotContainsMissingChar("who.int/c", PreferredDomain, 'k');
  }

  /** Only the first example item links to nhs.uk. */
  lemma ExampleKeys()
    ensures IsNhs(ExampleA) && !IsNhs(ExampleB) && !IsNhs(ExampleC)
  {
    ExampleANhs();
    ExampleBNotNhs();
    ExampleCNotNhs();
  }

  /** [b, a, c] with only `a` from nhs.uk sorts to [a, b, c]. */
  lemma NhsFirstThree(a: Item, b: Item, c: Item)
    requires IsNhs(a) && !IsNhs(b) && !IsNhs(c)
    ensures NhsFirst([b, a, c]) == [a, b, c]
  {
    var s := [b, a, c];
    assert s[..2] == [b, a] && s[..2][..1] == [b] && s[..2][..1][..0] == [];
    var nhs, rest := Group(s, true), Group(s, false);
    assert nhs == [a] by {
      assert Group([b], true) == [];
      assert Group(s[..2], true) == [a];
    }
    assert rest == [b, c] by {
      assert Group([b], false) == [b];
      assert Group(s[..2], false) == [b];
    }
    assert NhsFirst(s) == nhs + rest;
  }

  /** Example: [B, A(nhs.uk), C] sorts to [A, B, C]. */
  lemma NhsFirstExample()
    ensures NhsFirst([ExampleB, ExampleA, ExampleC]) == [ExampleA, ExampleB, ExampleC]
  {
    ExampleKeys();
    NhsFirstThree(ExampleA, ExampleB, ExampleC);
  }

  // ---------------------------------------------------------------------------
  // Projection to triples

  /** The item has the three fields the projection reads with `item[...]`. */
  predicate HasFields(item: Item)
    ensures HasFields(item) ==> "link" in item && (IsNhs(item) <==> Contains(item["link"], PreferredDomain))
  {
    "title" in item && "link" in item && "snippet" in item
  }

  /** The triple of one result; its link is the one the sort key looked at. */
  function ToSnippet(item: Item): (r: Snippet)
    requires HasFields(item)
    ensures IsNhs(item) <==> Contains(r.link, PreferredDomain)
    ensures r.title == item["title"] && r.link == item["link"] && r.text == item["snippet"]
  {
    Snippet(item["title"], item["link"], item["snippet"])
  }

  /** `[(item["title"], item["link"], item["snippet"]) for item in items]`: `None` when an item
      lacks a field (the `KeyError`), otherwise one triple per item, in order. */
  function Project(items: seq<Item>): (r: Option<seq<Snippet>>)
    ensures r.Some? <==> forall i :: 0 <= i < |items| ==> HasFields(items[i])
    ensures r.Some? ==>
              && |r.value| == |items|
              && forall i :: 0 <= i < |items| ==> HasFields(items[i]) && r.value[i] == ToSnippet(items[i])
  {
    if items == [] then Some([])
    else
      var front := items[..|items| - 1];
      var last := items[|items| - 1];
      assert forall i :: 0 <= i < |front| ==> front[i] == items[i];
      match Project(front)
      case None => None
      case Some(s) => if HasFields(last) then Some(s + [ToSnippet(last)]) else None
  }

  /** `get_medical_snippets` after the request: the sorted, projected results, or `[]`. A
      non-empty result comes from a decoded reply and has one snippet per item. */
  function MedicalSnippets(response: SearchResponse): (r: seq<Snippet>)
    ensures r != [] ==> response.Decoded? && response.items.Some? && |r| == |response.items.value|
  {
    match response
    case Unavailable => []
    case Decoded(items) =>
      match Project(NhsFirst(items.GetOr([])))
      case None => []
      case Some(s) => s
  }

  /** Some item lacks a field exactly when some sorted item does. */
  lemma SortedHasFields(items: seq<Item>)
    ensures (forall i :: 0 <= i < |items| ==> HasFields(items[i])) <==>
            (forall i :: 0 <= i < |NhsFirst(items)| ==> HasFields(NhsFirst(items)[i]))
  {
    var sorted := NhsFirst(items);
    NhsFirstPermutation(items);
    if forall i :: 0 <= i < |items| ==> HasFields(items[i]) {
      forall i | 0 <= i < |sorted|
        ensures HasFields(sorted[i])
      {
        assert sorted[i] in multiset(items);
      }
    }
    if forall i :: 0 <= i < |sorted| ==> HasFields(sorted[i]) {
      forall i | 0 <= i < |items|
        ensures HasFields(items[i])
      {
        assert items[i] in multiset(sorted);
      }
    }
  }

  /** One item without `title`, `link` or `snippet` makes the whole result `[]`. */
  lemma MedicalSnippetsMissingField(items: seq<Item>, i: nat)
    requires i < |items| && !HasFields(items[i])
    ensures MedicalSnippets(Decoded(Some(items))) == []
  {
    SortedHasFields(items);
  }

  /** When every item has its fields, the result is one snippet per item, in the sorted order. */
  lemma MedicalSnippetsAllFields(items: seq<Item>)
    requires forall i :: 0 <= i < |items| ==> HasFields(items[i])
    ensures var r := MedicalSnippets(Decoded(Some(items)));
            && |r| == |items|
            && forall i :: 0 <= i < |r| ==> HasFields(NhsFirst(items)[i]) &&
                                            r[i] == ToSnippet(NhsFirst(items)[i])
  {
    SortedHasFields(items);
  }

  /** What `get_medical_snippets` returns after a failed request: `[]`, never an error. */
  lemma MedicalSnippetsFailure(response: SearchResponse)
    requires response.Unavailable? || response == Decoded(None)
    ensures MedicalSnippets(response) == []
  {
  }

  function Links(snippets: seq<Snippet>): (r: seq<string>)
    ensures |r| == |snippets| && forall i :: 0 <= i < |snippets| ==> r[i] == snippets[i].link
  {
    seq(|snippets|, i requires 0 <= i < |snippets| => snippets[i].link)
  }

  /** No link mentioning nhs.uk comes after one that does not. */
  predicate NhsLinksFirst(links: seq<string>)
  {
    forall i, j :: 0 <= i < j < |links| && Contains(links[j], PreferredDomain) ==>
                   Contains(links[i], PreferredDomain)
  }

  /** The returned snippets keep the nhs.uk-first order. */
  lemma MedicalSnippetsNhsFirst(response: SearchResponse)
    ensures NhsLinksFirst(Links(MedicalSnippets(response)))
  {
    var r := MedicalSnippets(response);
    if r != [] {
      var items := response.items.value;
      var sorted := NhsFirst(items);
      SortedHasFields(items);
      MedicalSnippetsAllFields(items);
      NhsFirstSorted(items);
      var links := Links(r);
      forall i, j | 0 <= i < j < |links| && Contains(links[j], PreferredDomain)
        ensures Contains(links[i], PreferredDomain)
      {
        assert links[j] == Get(sorted[j], "link", "");
        assert links[i] == Get(sorted[i], "link", "");
        assert SortKey(sorted[i]) <= SortKey(sorted[j]);
      }
    }
  }
}
