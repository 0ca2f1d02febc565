/** The subject a policy makes of the name in a request. */
module PolicyRules {
  datatype Entry = Entry(nid: nat, data: string)

  /** A row of the policy section. */
  datatype Row = Row(name: string, value: string)

  const NID_UNDEF: nat := 0
  const NID_EMAIL: nat := 48

  /** The entries of one type, in their order. */
  function OfType(name: seq<Entry>, nid: nat): seq<Entry> {
    if name == [] then []
    else OfType(name[..|name| - 1], nid) + if name[|name| - 1].nid == nid then [name[|name| - 1]] else []
  }

  lemma OfTypeStep(name: seq<Entry>, nid: nat, k: nat)
    requires k < |name|
    ensures OfType(name[..k + 1], nid) == OfType(name[..k], nid) + if name[k].nid == nid then [name[k]] else []
  {
    assert name[..k + 1][..k] == name[..k];
  }

  /** Entries of other types leave no trace. */
  lemma {:induction false} OfTypeSkips(name: seq<Entry>, nid: nat, i: nat, j: nat)
    requires i <= j <= |name| && forall k :: i <= k < j ==> name[k].nid != nid
    ensures OfType(name[..j], nid) == OfType(name[..i], nid)
    decreases j
  {
    if i < j {
      OfTypeSkips(name, nid, i, j - 1);
      OfTypeStep(name, nid, j - 1);
    }
  }

  lemma {:induction false} OfTypeMembers(name: seq<Entry>, nid: nat)
    ensures forall e :: e in OfType(name, nid) <==> e in name && e.nid == nid
  {
    if name != [] {
      OfTypeMembers(name[..|name| - 1], nid);
      assert name == name[..|name| - 1] + [name[|name| - 1]];
    }
  }

  /** What a row demands of the request and of the CA's own name. */
  predicate Accepts(row: Row, nidOf: string -> nat, name: seq<Entry>, ca: seq<Entry>) {
    var nid := nidOf(row.name);
    && nid != NID_UNDEF
    && row.value in {"optional", "supplied", "match"}
    && (row.value != "optional" ==> OfType(name, nid) != [])
    && (row.value == "match" ==> forall e :: e in name && e.nid == nid ==> e in ca)
  }

  /** The entries of the request, row by row. */
  function Subject(policy: seq<Row>, nidOf: string -> nat, name: seq<Entry>): seq<Entry> {
    if policy == [] then []
    else Subject(policy[..|policy| - 1], nidOf, name) + OfType(name, nidOf(policy[|policy| - 1].name))
  }

  /** The name without entries of one type. */
  function NotOfType(name: seq<Entry>, nid: nat): seq<Entry> {
    if name == [] then []
    else (if name[0].nid == nid then [] else [name[0]]) + NotOfType(name[1..], nid)
  }

  lemma {:induction false} NotOfTypeRemoved(name: seq<Entry>, nid: nat, i: nat)
    requires i < |name| && name[i].nid == nid
    ensures NotOfType(name[..i] + name[i + 1..], nid) == NotOfType(name, nid)
  {
    if i == 0 {
      assert name[..0] + name[1..] == name[1..];
    } else {
      var t := name[1..];
      assert (name[..i] + name[i + 1..])[1..] == t[..i - 1] + t[i..];
      NotOfTypeRemoved(t, nid, i - 1);
    }
  }

  lemma {:induction false} NotOfTypeSame(name: seq<Entry>, nid: nat)
    requires forall k :: 0 <= k < |name| ==> name[k].nid != nid
    ensures NotOfType(name, nid) == name
  {
    if name != [] {
      NotOfTypeSame(name[1..], nid);
    }
  }

  lemma {:induction false} NotOfTypeMembers(name: seq<Entry>, nid: nat)
    ensures forall e :: e in NotOfType(name, nid) <==> e in name && e.nid != nid
  {
    if name != [] {
      NotOfTypeMembers(name[1..], nid);
    }
  }

  /** The entries of some types, in their order. */
  function Selected(name: seq<Entry>, nids: set<nat>): seq<Entry> {
    if name == [] then []
    else Selected(name[..|name| - 1], nids) + if name[|name| - 1].nid in nids then [name[|name| - 1]] else []
  }

  function Types(policy: seq<Row>, nidOf: string -> nat): set<nat> {
    if policy == [] then {} else Types(policy[..|policy| - 1], nidOf) + {nidOf(policy[|policy| - 1].name)}
  }

  predicate OnceEach(policy: seq<Row>, nidOf: string -> nat) {
    policy == [] || (OnceEach(policy[..|policy| - 1], nidOf)
                     && nidOf(policy[|policy| - 1].name) !in Types(policy[..|policy| - 1], nidOf))
  }

  lemma {:induction false} SelectedSplits(name: seq<Entry>, nids: set<nat>, nid: nat)
    requires nid !in nids
    ensures multiset(Selected(name, nids + {nid})) == multiset(Selected(name, nids)) + multiset(OfType(name, nid))
  {
    if name != [] {
      SelectedSplits(name[..|name| - 1], nids, nid);
    }
  }

  lemma {:induction false} SelectedNone(name: seq<Entry>)
    ensures Selected(name, {}) == []
  {
    if name != [] {
      SelectedNone(name[..|name| - 1]);
    }
  }

  /** A policy that names each type once rearranges the entries of those types: none is lost,
      invented or doubled. */
  lemma {:induction false} SubjectIsSelection(policy: seq<Row>, nidOf: string -> nat, name: seq<Entry>)
    requires OnceEach(policy, nidOf)
    ensures multiset(Subject(policy, nidOf, name)) == multiset(Selected(name, Types(policy, nidOf)))
  {
    if policy == [] {
      SelectedNone(name);
    } else {
      var rest, row := policy[..|policy| - 1], policy[|policy| - 1];
      SubjectIsSelection(rest, nidOf, name);
      SelectedSplits(name, Types(rest, nidOf), nidOf(row.name));
    }
  }
}

/** The policy loop of do_body and the removal of e-mail addresses. */
module Policy {
  import opened PolicyRules
  import opened Wrappers

  /** X509_NAME_get_index_by_OBJ: the first entry of a type after `last`, -1 if there is none. */
  method IndexByObj(name: seq<Entry>, nid: nat, last: int) returns (j: int)
    ensures -1 <= j < |name|
    ensures forall k :: last < k < (if j < 0 then |name| else j) && 0 <= k ==> name[k].nid != nid
    ensures j >= 0 ==> last < j && name[j].nid == nid
  {
    j := if last < 0 then -1 else last;
    j := j + 1;
    while j < |name|
      invariant 0 <= j && last < j && forall k :: last < k < j && 0 <= k < |name| ==> name[k].nid != nid
      decreases |name| - j
    {
      if name[j].nid == nid {
        return;
      }
      j := j + 1;
    }
    j := -1;
  }

  /** The search in the CA's name for an entry equal to the request's; -1 if there is none. */
  method FindEqual(ca: seq<Entry>, tne: Entry) returns (j: int)
    ensures j >= 0 <==> tne in ca
    ensures j >= 0 ==> j < |ca| && ca[j] == tne
  {
    var last2 := -1;
    while true
      invariant -1 <= last2 < |ca| && forall k :: 0 <= k <= last2 ==> ca[k] != tne
      decreases |ca| - last2
    {
      j := IndexByObj(ca, tne.nid, last2);
      if j < 0 {
        assert forall k :: 0 <= k < |ca| && ca[k].nid == tne.nid ==> k <= last2;
        return;
      }
      last2 := j;
      if ca[j].data == tne.data {
        return;
      }
    }
  }

  /** What the rows up to `last` of a match row need. */
  ghost predicate Matched(name: seq<Entry>, nid: nat, last: int, ca: seq<Entry>) {
    forall k :: 0 <= k <= last && k < |name| && name[k].nid == nid ==> name[k] in ca
  }

  lemma AcceptsIff(row: Row, nidOf: string -> nat, name: seq<Entry>, ca: seq<Entry>)
    ensures Accepts(row, nidOf, name, ca) <==>
            && nidOf(row.name) != 0
            && (|| row.value == "optional"
                || (row.value == "supplied" && exists e :: e in name && e.nid == nidOf(row.name))
                || (row.value == "match" && (exists e :: e in name && e.nid == nidOf(row.name))
                                         && forall e :: e in name && e.nid == nidOf(row.name) ==> e in ca))
  {
    hide OfType;
    var some := OfType(name, nidOf(row.name));
    OfTypeMembers(name, nidOf(row.name));
    assert some != [] ==> some[0] in some;
    assert "optional" != "supplied" && "supplied" != "match" && "optional" != "match" by {
      assert |"optional"| != |"match"| && "optional"[0] != "supplied"[0];
    }
  }

  lemma MatchedNext(name: seq<Entry>, nid: nat, last: int, j: nat, ca: seq<Entry>)
    requires Matched(name, nid, last, ca) && last < j < |name| && name[j] in ca
    requires forall k :: last < k < j && 0 <= k ==> name[k].nid != nid
    ensures Matched(name, nid, j, ca)
  {
  }

  lemma MatchedAll(name: seq<Entry>, nid: nat, last: int, ca: seq<Entry>)
    requires Matched(name, nid, last, ca) && forall k :: last < k < |name| && 0 <= k ==> name[k].nid != nid
    ensures forall e :: e in name && e.nid == nid ==> e in ca
  {
  }

  lemma NothingYet(name: seq<Entry>, nid: nat, ca: seq<Entry>)
    ensures OfType(name[..0], nid) == [] && Matched(name, nid, -1, ca)
  {
  }

  /** The loop over the entries of one row's type, appending to the subject. */
  method AddRow(row: Row, nidOf: string -> nat, name: seq<Entry>, ca: seq<Entry>, base: seq<Entry>)
    returns (ok: bool, subject: seq<Entry>)
    ensures ok <==> Accepts(row, nidOf, name, ca)
    // an optional entry may be missing; a supplied one may not; and a match must be one of the CA's own
    ensures ok <==> && nidOf(row.name) != 0
                    && (|| row.value == "optional"
                        || (row.value == "supplied" && exists e :: e in name && e.nid == nidOf(row.name))
                        || (row.value == "match" && (exists e :: e in name && e.nid == nidOf(row.name))
                                                 && forall e :: e in name && e.nid == nidOf(row.name) ==> e in ca))
    ensures ok ==> subject == base + OfType(name, nidOf(row.name))
  {
    hide OfType, Matched;
    AcceptsIff(row, nidOf, name, ca);
    subject := base;
    var nid := nidOf(row.name);
    if nid == NID_UNDEF {
      return false, subject;
    }
    OfTypeMembers(name, nid);
    NothingYet(name, nid, ca);
    assert name[..|name|] == name;
    var last := -1;
    while true
      invariant -1 <= last < |name| && subject == base + OfType(name[..last + 1], nid)
      invariant last >= 0 ==> name[last].nid == nid && row.value in {"optional", "supplied", "match"}
      invariant row.value == "match" ==> Matched(name, nid, last, ca)
      decreases |name| - last
    {
      var j := IndexByObj(name, nid, last);
      OfTypeSkips(name, nid, last + 1, if j < 0 then |name| else j);
      if j < 0 && last != -1 {
        break;
      }
      var tne := if j < 0 then None else Some(name[j]);
      ghost var before := last;
      last := j;
      var push := None;
      if row.value == "optional" {
        push := tne;
      } else if row.value == "supplied" {
        if tne == None {
          return false, subject;
        }
        push := tne;
      } else if row.value == "match" {
        if tne == None {
          return false, subject;
        }
        j := FindEqual(ca, tne.value);
        if j < 0 {
          return false, subject;
        }
        MatchedNext(name, nid, before, last, ca);
        push := Some(ca[j]);
      } else {
        return false, subject;
      }
      if push.Some? {
        OfTypeStep(name, nid, last);
        subject := subject + [push.value];
      }
      if j < 0 {
        break;
      }
    }
    if row.value == "match" {
      MatchedAll(name, nid, last, ca);
    }
    ok := true;
  }

  /** The policy loop: success exactly if every row accepts, with the entries row by row. */
  method BuildSubject(policy: seq<Row>, nidOf: string -> nat, name: seq<Entry>, ca: seq<Entry>)
    returns (r: Option<seq<Entry>>)
    ensures r.Some? <==> forall row :: row in policy ==> Accepts(row, nidOf, name, ca)
    ensures r.Some? ==> r.value == Subject(policy, nidOf, name)
  {
    hide Accepts;
    var subject := [];
    for i := 0 to |policy|
      invariant forall k :: 0 <= k < i ==> Accepts(policy[k], nidOf, name, ca)
      invariant subject == Subject(policy[..i], nidOf, name)
    {
      var ok;
      ok, subject := AddRow(policy[i], nidOf, name, ca, subject);
      if !ok {
        return None;
      }
      assert policy[..i + 1][..i] == policy[..i];
    }
    assert policy[..|policy|] == policy;
    r := Some(subject);
  }

  /** The distinguished name of the certificate: the request's own where it is preserved, without
      e-mail addresses where they are not wanted. */
  method DnSubject(subject: seq<Entry>, name: seq<Entry>, preserve: bool, emailDn: bool) returns (dn: seq<Entry>)
    ensures var s := if preserve then name else subject;
            dn == if emailDn then s else NotOfType(s, 48)
  {
    dn := if preserve then name else subject;
    if emailDn {
      return;
    }
    ghost var s := dn;
    while true
      invariant NotOfType(dn, NID_EMAIL) == NotOfType(s, NID_EMAIL)
      decreases |dn|
    {
      var i := IndexByObj(dn, NID_EMAIL, -1);
      if i < 0 {
        NotOfTypeSame(dn, NID_EMAIL);
        return;
      }
      NotOfTypeRemoved(dn, NID_EMAIL, i);
      dn := dn[..i] + dn[i + 1..];
    }
  }
}
