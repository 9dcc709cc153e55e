/** The keyword-group store: the list of groups the popup edits, and the
    four actions that compute a new list from the old one. */
module KeywordStore {
  import opened Ascii

  datatype KeywordGroup = KeywordGroup(name: string, color: string, keywords: seq<string>)

  /** Some group's name equals `name` ignoring case. */
  predicate NameTaken(groups: seq<KeywordGroup>, name: string) {
    exists i :: 0 <= i < |groups| && EqualsIgnoreCase(groups[i].name, name)
  }

  /** Some keyword equals `k` ignoring case. */
  predicate HasKeyword(ks: seq<string>, k: string) {
    exists i :: 0 <= i < |ks| && EqualsIgnoreCase(ks[i], k)
  }

  /** No two keywords of the list are equal ignoring case. */
  predicate DistinctIgnoringCase(ks: seq<string>) {
    forall i, j :: 0 <= i < j < |ks| ==> !EqualsIgnoreCase(ks[i], ks[j])
  }

  /** Every keyword is trimmed and non-empty. */
  predicate TrimmedKeywords(ks: seq<string>) {
    forall k :: k in ks ==> k != [] && Trim(k) == k
  }

  /** What the store keeps true of every group once it has been through
      the actions. */
  predicate WellFormed(groups: seq<KeywordGroup>) {
    forall i :: 0 <= i < |groups| ==>
      DistinctIgnoringCase(groups[i].keywords) && TrimmedKeywords(groups[i].keywords)
  }

  /** No two groups have names equal ignoring case. */
  predicate UniqueNames(groups: seq<KeywordGroup>) {
    forall i, j :: 0 <= i < j < |groups| ==> !EqualsIgnoreCase(groups[i].name, groups[j].name)
  }

  /** `addGroup` as written: the blank check is on the trimmed name, the
      duplicate check on the name as given. */
  function GroupAdded(groups: seq<KeywordGroup>, name: string, color: string): (r: seq<KeywordGroup>)
    ensures |r| == |groups| || |r| == |groups| + 1
    ensures r[..|groups|] == groups
    ensures |r| == |groups| + 1 <==> Trim(name) != [] && !NameTaken(groups, name)
    ensures |r| == |groups| + 1 ==> r[|groups|] == KeywordGroup(Trim(name), color, [])
  {
    if Trim(name) == [] || NameTaken(groups, name) then groups
    else groups + [KeywordGroup(Trim(name), color, [])]
  }

  /** `addGroup` with the duplicate check on the trimmed name, the name
      that is stored. */
  function GroupAddedTrimmed(groups: seq<KeywordGroup>, name: string, color: string): (r: seq<KeywordGroup>)
    ensures |r| == |groups| || |r| == |groups| + 1
    ensures r[..|groups|] == groups
    ensures |r| == |groups| + 1 <==> Trim(name) != [] && !NameTaken(groups, Trim(name))
    ensures |r| == |groups| + 1 ==> r[|groups|] == KeywordGroup(Trim(name), color, [])
  {
    if Trim(name) == [] || NameTaken(groups, Trim(name)) then groups
    else groups + [KeywordGroup(Trim(name), color, [])]
  }

  /** Written as `addGroup` is, the duplicate check lets a name through
      that differs from an existing one only by surrounding white space, and
      two groups named "Sales" result. */
  lemma GroupAddedDuplicate()
    ensures var r := GroupAdded([KeywordGroup("Sales", "blue", [])], " Sales", "red");
      |r| == 2 && r[0].name == r[1].name
  {
    var name := " Sales";
    TrimLeadingSpace("Sales");
    assert name == [' '] + "Sales";
    assert |Lower("Sales")| != |Lower(name)|;
    assert !NameTaken([KeywordGroup("Sales", "blue", [])], name);
  }

  /** A space in front of a word is trimmed away. */
  lemma TrimLeadingSpace(w: string)
    requires w != [] && !IsTrimSpace(w[0]) && !IsTrimSpace(w[|w| - 1])
    ensures Trim([' '] + w) == w
  {
    var s := [' '] + w;
    assert s[1..] == w;
    assert SkipSpace(s, 1) == 1;
    assert SkipSpace(s, 0) == 1;
    assert SkipSpaceBack(s, 1, |s|) == |s|;
  }

  /** With the check on the trimmed name, group names stay unique ignoring
      case. */
  lemma GroupAddedTrimmedKeepsUniqueNames(groups: seq<KeywordGroup>, name: string, color: string)
    requires UniqueNames(groups)
    ensures UniqueNames(GroupAddedTrimmed(groups, name, color))
  {
    var r := GroupAddedTrimmed(groups, name, color);
    if |r| == |groups| + 1 {
      forall i, j | 0 <= i < j < |r|
        ensures !EqualsIgnoreCase(r[i].name, r[j].name)
      {
        if j == |groups| {
          assert r[i] == groups[i];
          assert !EqualsIgnoreCase(groups[i].name, Trim(name));
        } else {
          assert r[i] == groups[i] && r[j] == groups[j];
        }
      }
    }
  }

  /** The groups not named `groupName` (exact comparison). */
  function GroupRemoved(groups: seq<KeywordGroup>, groupName: string): (r: seq<KeywordGroup>)
    ensures |r| <= |groups|
  {
    if groups == [] then []
    else
      var last := groups[|groups| - 1];
      GroupRemoved(groups[..|groups| - 1], groupName) + (if last.name != groupName then [last] else [])
  }

  /** The kept groups are exactly the groups whose name differs from
      `groupName`. */
  lemma {:induction false} GroupRemovedMembers(groups: seq<KeywordGroup>, groupName: string)
    ensures forall g :: g in GroupRemoved(groups, groupName) <==> g in groups && g.name != groupName
    decreases |groups|
  {
    if groups != [] {
      var init, last := groups[..|groups| - 1], groups[|groups| - 1];
      GroupRemovedMembers(init, groupName);
      assert groups == init + [last];
    }
  }

  /** Removal keeps the order of what it keeps: it distributes over
      concatenation. */
  lemma {:induction false} GroupRemovedAppend(a: seq<KeywordGroup>, b: seq<KeywordGroup>, groupName: string)
    ensures GroupRemoved(a + b, groupName) == GroupRemoved(a, groupName) + GroupRemoved(b, groupName)
    decreases |b|
  {
    if b == [] {
      assert a + b == a;
    } else {
      var init := b[..|b| - 1];
      assert (a + b)[..|a + b| - 1] == a + init;
      GroupRemovedAppend(a, init, groupName);
    }
  }

  /** Removing a name no group has changes nothing. */
  lemma {:induction false} GroupRemovedAbsent(groups: seq<KeywordGroup>, groupName: string)
    requires forall i :: 0 <= i < |groups| ==> groups[i].name != groupName
    ensures GroupRemoved(groups, groupName) == groups
    decreases |groups|
  {
    if groups != [] {
      var init, last := groups[..|groups| - 1], groups[|groups| - 1];
      assert forall i :: 0 <= i < |init| ==> init[i] == groups[i];
      GroupRemovedAbsent(init, groupName);
      assert last.name != groupName;
      assert GroupRemoved(groups, groupName) == init + [last];
      assert groups == init + [last];
    }
  }

  /** Removing a group twice is removing it once. */
  lemma GroupRemovedIdempotent(groups: seq<KeywordGroup>, groupName: string)
    ensures GroupRemoved(GroupRemoved(groups, groupName), groupName) == GroupRemoved(groups, groupName)
  {
    var r := GroupRemoved(groups, groupName);
    GroupRemovedMembers(groups, groupName);
    forall i | 0 <= i < |r|
      ensures r[i].name != groupName
    {
      assert r[i] in r;
    }
    GroupRemovedAbsent(r, groupName);
  }

  /** The map callback of `addKeywordToGroup`, with `k` already trimmed. */
  function GroupWithKeyword(g: KeywordGroup, groupName: string, k: string): KeywordGroup {
    if g.name == groupName && !HasKeyword(g.keywords, k) then g.(keywords := g.keywords + [Trim(k)]) else g
  }

  /** `addKeywordToGroup`: the keyword is trimmed; blank leaves the groups
      as they are; otherwise each group named `groupName` that lacks it
      (ignoring case) gets it at the end, and every other group is kept. */
  function KeywordAdded(groups: seq<KeywordGroup>, groupName: string, keyword: string): (r: seq<KeywordGroup>)
    ensures |r| == |groups|
    ensures Trim(keyword) == [] ==> r == groups
    ensures forall i :: 0 <= i < |groups| ==>
      r[i].name == groups[i].name && r[i].color == groups[i].color &&
      (groups[i].name != groupName || HasKeyword(groups[i].keywords, Trim(keyword)) ==> r[i] == groups[i]) &&
      (Trim(keyword) != [] && groups[i].name == groupName && !HasKeyword(groups[i].keywords, Trim(keyword)) ==>
        r[i].keywords == groups[i].keywords + [Trim(keyword)])
  {
    var k := Trim(keyword);
    TrimIdempotent(keyword);
    if k == [] then groups
    else seq(|groups|, i requires 0 <= i < |groups| => GroupWithKeyword(groups[i], groupName, k))
  }

  /** Keywords other than `keyword` (exact comparison), in order. */
  function Without(ks: seq<string>, keyword: string): (r: seq<string>)
    ensures |r| <= |ks|
    ensures forall k :: k in r <==> k in ks && k != keyword
  {
    if ks == [] then []
    else Without(ks[..|ks| - 1], keyword) + (if ks[|ks| - 1] != keyword then [ks[|ks| - 1]] else [])
  }

  /** `removeKeywordFromGroup`: groups named `groupName` lose every
      keyword exactly equal to `keyword`; every other group is kept. */
  function KeywordRemoved(groups: seq<KeywordGroup>, groupName: string, keyword: string): (r: seq<KeywordGroup>)
    ensures |r| == |groups|
    ensures forall i :: 0 <= i < |groups| ==>
      r[i].name == groups[i].name && r[i].color == groups[i].color &&
      (groups[i].name != groupName ==> r[i] == groups[i]) &&
      (groups[i].name == groupName ==> forall k :: k in r[i].keywords <==> k in groups[i].keywords && k != keyword)
  {
    seq(|groups|, i requires 0 <= i < |groups| =>
      if groups[i].name == groupName then groups[i].(keywords := Without(groups[i].keywords, keyword))
      else groups[i])
  }

  lemma {:induction false} WithoutAppend(a: seq<string>, b: seq<string>, keyword: string)
    ensures Without(a + b, keyword) == Without(a, keyword) + Without(b, keyword)
    decreases |b|
  {
    if b == [] {
      assert a + b == a;
    } else {
      var init := b[..|b| - 1];
      assert (a + b)[..|a + b| - 1] == a + init;
      WithoutAppend(a, init, keyword);
    }
  }

  lemma {:induction false} WithoutAbsent(ks: seq<string>, keyword: string)
    requires keyword !in ks
    ensures Without(ks, keyword) == ks
    decreases |ks|
  {
    if ks != [] {
      WithoutAbsent(ks[..|ks| - 1], keyword);
      assert ks == ks[..|ks| - 1] + [ks[|ks| - 1]];
    }
  }

  /** A keyword in the list is in it ignoring case too. */
  lemma InHasKeyword(ks: seq<string>, k: string)
    ensures k in ks ==> HasKeyword(ks, k)
  {
    if k in ks {
      var i :| 0 <= i < |ks| && ks[i] == k;
      assert EqualsIgnoreCase(ks[i], k);
    }
  }

  /** Adding a trimmed keyword that no group of that name has (ignoring
      case) and then removing it gives back the groups. */
  lemma AddThenRemove(groups: seq<KeywordGroup>, groupName: string, keyword: string)
    requires keyword != [] && Trim(keyword) == keyword
    requires forall i :: 0 <= i < |groups| && groups[i].name == groupName ==> !HasKeyword(groups[i].keywords, keyword)
    ensures KeywordRemoved(KeywordAdded(groups, groupName, keyword), groupName, keyword) == groups
  {
    var a := KeywordAdded(groups, groupName, keyword);
    var r := KeywordRemoved(a, groupName, keyword);
    forall i | 0 <= i < |groups|
      ensures r[i] == groups[i]
    {
      if groups[i].name == groupName {
        var ks := groups[i].keywords;
        InHasKeyword(ks, keyword);
        WithoutAppend(ks, [keyword], keyword);
        WithoutAbsent(ks, keyword);
        assert Without([keyword], keyword) == Without([], keyword) + [];
        assert r[i].keywords == Without(ks + [keyword], keyword);
      }
    }
  }

  /** Adding a keyword keeps every group's keywords distinct ignoring case,
      trimmed and non-empty. */
  lemma KeywordAddedWellFormed(groups: seq<KeywordGroup>, groupName: string, keyword: string)
    requires WellFormed(groups)
    ensures WellFormed(KeywordAdded(groups, groupName, keyword))
  {
    var r := KeywordAdded(groups, groupName, keyword);
    var k := Trim(keyword);
    TrimIdempotent(keyword);
    forall i | 0 <= i < |r|
      ensures DistinctIgnoringCase(r[i].keywords) && TrimmedKeywords(r[i].keywords)
    {
      if r[i] != groups[i] {
        var ks := groups[i].keywords;
        assert r[i].keywords == ks + [k];
        forall a, b | 0 <= a < b < |ks| + 1
          ensures !EqualsIgnoreCase((ks + [k])[a], (ks + [k])[b])
        {
          if b == |ks| {
            assert (ks + [k])[a] == ks[a];
            assert !EqualsIgnoreCase(ks[a], k);
          } else {
            assert (ks + [k])[a] == ks[a] && (ks + [k])[b] == ks[b];
          }
        }
      }
    }
  }

  /** Removing a keyword keeps every group well formed. */
  lemma KeywordRemovedWellFormed(groups: seq<KeywordGroup>, groupName: string, keyword: string)
    requires WellFormed(groups)
    ensures WellFormed(KeywordRemoved(groups, groupName, keyword))
  {
    var r := KeywordRemoved(groups, groupName, keyword);
    forall i | 0 <= i < |r|
      ensures DistinctIgnoringCase(r[i].keywords) && TrimmedKeywords(r[i].keywords)
    {
      if groups[i].name == groupName {
        SubsequenceWellFormed(groups[i].keywords, keyword);
      }
    }
  }

  lemma SubsequenceWellFormed(ks: seq<string>, keyword: string)
    requires DistinctIgnoringCase(ks) && TrimmedKeywords(ks)
    ensures DistinctIgnoringCase(Without(ks, keyword)) && TrimmedKeywords(Without(ks, keyword))
  {
    WithoutDistinct(ks, keyword);
  }

  lemma {:induction false} WithoutDistinct(ks: seq<string>, keyword: string)
    requires DistinctIgnoringCase(ks)
    ensures DistinctIgnoringCase(Without(ks, keyword))
    decreases |ks|
  {
    if ks != [] {
      var init, last := ks[..|ks| - 1], ks[|ks| - 1];
      assert forall j :: 0 <= j < |init| ==> init[j] == ks[j];
      WithoutDistinct(init, keyword);
      if last != keyword {
        DistinctSnoc(Without(init, keyword), last, init, ks);
      }
    }
  }

  /** Appending the last keyword of `ks` to a selection of the others keeps
      the selection distinct. */
  lemma DistinctSnoc(ri: seq<string>, last: string, init: seq<string>, ks: seq<string>)
    requires ks == init + [last] && DistinctIgnoringCase(ks) && DistinctIgnoringCase(ri)
    requires forall x :: x in ri ==> x in init
    ensures DistinctIgnoringCase(ri + [last])
  {
    var r := ri + [last];
    forall a, b | 0 <= a < b < |r|
      ensures !EqualsIgnoreCase(r[a], r[b])
    {
      if b == |ri| {
        assert r[a] == ri[a] && ri[a] in init;
        var m :| 0 <= m < |init| && init[m] == ri[a];
        assert ks[m] == r[a] && r[b] == ks[|ks| - 1];
      } else {
        assert r[a] == ri[a] && r[b] == ri[b];
      }
    }
  }

  /** Adding a group keeps every group well formed: the new group has no
      keywords. */
  lemma GroupAddedWellFormed(groups: seq<KeywordGroup>, name: string, color: string)
    requires WellFormed(groups)
    ensures WellFormed(GroupAdded(groups, name, color))
  {
    var r := GroupAdded(groups, name, color);
    forall i | 0 <= i < |r|
      ensures DistinctIgnoringCase(r[i].keywords) && TrimmedKeywords(r[i].keywords)
    {
      if i < |groups| {
        assert r[i] == r[..|groups|][i] == groups[i];
      } else {
        assert r[i].keywords == [];
      }
    }
  }

  /** The zustand store: `groups` and the four actions, each replacing
      `groups` with the list it computes. Group names need not be unique:
      `addGroup` as written can store two groups with the same name. */
  class KeywordsStore {
    var groups: seq<KeywordGroup>

    ghost predicate Valid()
      reads this
    {
      WellFormed(groups)
    }

    constructor ()
      ensures Valid() && groups == []
    {
      groups := [];
    }

    method AddGroup(name: string, color: string)
      requires Valid()
      modifies this
      ensures Valid() && groups == GroupAdded(old(groups), name, color)
    {
      GroupAddedWellFormed(groups, name, color);
      groups := GroupAdded(groups, name, color);
    }

    method RemoveGroup(groupName: string)
      requires Valid()
      modifies this
      ensures Valid() && groups == GroupRemoved(old(groups), groupName)
    {
      var r := GroupRemoved(groups, groupName);
      KeptGroupsValid(groups, groupName);
      groups := r;
    }

    method AddKeywordToGroup(groupName: string, keyword: string)
      requires Valid()
      modifies this
      ensures Valid() && groups == KeywordAdded(old(groups), groupName, keyword)
    {
      KeywordAddedWellFormed(groups, groupName, keyword);
      var r := KeywordAdded(groups, groupName, keyword);
      groups := r;
    }

    method RemoveKeywordFromGroup(groupName: string, keyword: string)
      requires Valid()
      modifies this
      ensures Valid() && groups == KeywordRemoved(old(groups), groupName, keyword)
    {
      KeywordRemovedWellFormed(groups, groupName, keyword);
      var r := KeywordRemoved(groups, groupName, keyword);
      groups := r;
    }
  }

  /** Removing groups keeps the rest well formed, and uniquely named when
      the names were unique before. */
  lemma {:induction false} KeptGroupsValid(groups: seq<KeywordGroup>, groupName: string)
    ensures WellFormed(groups) ==> WellFormed(GroupRemoved(groups, groupName))
    ensures UniqueNames(groups) ==> UniqueNames(GroupRemoved(groups, groupName))
    decreases |groups|
  {
    if groups != [] {
      var init := groups[..|groups| - 1];
      var last := groups[|groups| - 1];
      assert forall i :: 0 <= i < |init| ==> init[i] == groups[i];
      KeptGroupsValid(init, groupName);
      GroupRemovedMembers(init, groupName);
      var ri := GroupRemoved(init, groupName);
      var r := GroupRemoved(groups, groupName);
      if last.name != groupName && UniqueNames(groups) {
        assert r == ri + [last];
        forall i, j | 0 <= i < j < |r|
          ensures !EqualsIgnoreCase(r[i].name, r[j].name)
        {
          if j == |ri| {
            assert r[i] == ri[i] && ri[i] in init;
            var k :| 0 <= k < |init| && init[k] == ri[i];
            assert groups[k] == ri[i] && k < |groups| - 1;
          } else {
            assert r[i] == ri[i] && r[j] == ri[j];
          }
        }
      }
    }
  }
}
