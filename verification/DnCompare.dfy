/** compare_ldap_sentence_without_tag: DN equality that is case-blind only inside the three-byte tags. */
module DnCompare {
  import opened CText

  const LDAP_TAG_SIZE := 3

  /** How many bytes of a component's opening tag are still to come at position k; 0 outside a tag.
      A tag opens at the start and after every comma that is itself outside a tag. */
  function TagLeft(s: string, k: nat): (left: nat)
    requires k <= |s|
  {
    if k == 0 then LDAP_TAG_SIZE
    else
      var before := TagLeft(s, k - 1);
      if before > 0 then before - 1
      else if s[k - 1] == ',' then LDAP_TAG_SIZE
      else 0
  }

  /** Equal ignoring case, and byte-equal outside the tags. */
  predicate SameDn(s: string, t: string) {
    && EqualIgnoreCase(s, t)
    && forall k :: 0 <= k < |s| && TagLeft(s, k) == 0 ==> s[k] == t[k]
  }

  /** Inside one tag the count runs down by one a byte. */
  lemma {:induction false} TagRunsDown(s: string, i: nat, d: nat)
    requires i <= i + d <= |s| && d <= LDAP_TAG_SIZE
    requires TagLeft(s, i) == LDAP_TAG_SIZE
    ensures TagLeft(s, i + d) == LDAP_TAG_SIZE - d
  {
    if d > 0 { TagRunsDown(s, i, d - 1); }
  }

  method CompareWithoutTag(src: Option<CString>, dst: Option<CString>) returns (ret: int)
    ensures ret == RET_OK || ret == RET_ERR
    ensures ret == RET_OK <==> src.Some? && dst.Some? && SameDn(src.value, dst.value)
  {
    if src.None? || dst.None? { return RET_ERR; }
    var s, t := src.value, dst.value;
    if !EqualIgnoreCase(s, t) { return RET_ERR; }
    var length := |s|;
    var i := 0;
    var again := true;
    while again
      invariant again ==> i <= length && TagLeft(s, i) == LDAP_TAG_SIZE
      invariant !again ==> i >= length
      invariant forall k :: 0 <= k < i && k < length && TagLeft(s, k) == 0 ==> s[k] == t[k]
      decreases again, length - i
    {
      forall k | i <= k <= i + LDAP_TAG_SIZE && k <= length
        ensures TagLeft(s, k) == LDAP_TAG_SIZE - (k - i)
      {
        TagRunsDown(s, i, k - i);
      }
      i := i + LDAP_TAG_SIZE;
      while i <= length && At(s, i) != '\0'
        invariant i <= length ==> TagLeft(s, i) == 0
        invariant forall k :: 0 <= k < i && k < length && TagLeft(s, k) == 0 ==> s[k] == t[k]
        decreases length - i
      {
        if At(s, i) != At(t, i) { return RET_ERR; }
        if At(s, i) == ',' {
          i := i + 1;
          break;
        }
        i := i + 1;
      }
      again := i <= length && At(s, i) != '\0';
    }
    return RET_OK;
  }

  /** Strings that agree outside the tags have their tags in the same places. */
  lemma {:induction false} SameTags(s: string, t: string, k: nat)
    requires SameDn(s, t) && k <= |s|
    ensures TagLeft(s, k) == TagLeft(t, k)
  {
    if k > 0 { SameTags(s, t, k - 1); }
  }

  lemma SameDnSymmetric(s: string, t: string)
    requires SameDn(s, t)
    ensures SameDn(t, s)
  {
    forall k | 0 <= k < |s| ensures TagLeft(s, k) == TagLeft(t, k) { SameTags(s, t, k); }
  }

  lemma SameDnTransitive(s: string, t: string, u: string)
    requires SameDn(s, t) && SameDn(t, u)
    ensures SameDn(s, u)
  {
    forall k | 0 <= k < |s| ensures TagLeft(s, k) == TagLeft(t, k) { SameTags(s, t, k); }
  }

  /** SameDn lies strictly between equality and case-insensitive equality. */
  lemma SameDnBetween(s: string, t: string)
    ensures s == t ==> SameDn(s, t)
    ensures SameDn(s, t) ==> EqualIgnoreCase(s, t)
    ensures SameDn("cn=a", "CN=a") && "cn=a" != "CN=a"
    ensures EqualIgnoreCase("CN=a", "CN=A") && !SameDn("CN=a", "CN=A")
  {
    TagRunsDown("cn=a", 0, 3);
    TagRunsDown("CN=a", 0, 3);
    assert TagLeft("CN=a", 3) == 0;
    forall k | 0 <= k < 4 ensures TagLeft("cn=a", k) == 3 - k { TagRunsDown("cn=a", 0, k); }
  }

  // ---- component by component ----

  /** Behind an opening tag and a name without commas the next component opens a tag of its own. */
  lemma {:induction false} TagClosed(front: string, k: nat)
    requires LDAP_TAG_SIZE <= k <= |front| && forall i :: LDAP_TAG_SIZE <= i < k ==> front[i] != ','
    ensures TagLeft(front, k) == 0
    decreases k
  {
    if k == LDAP_TAG_SIZE {
      assert TagLeft(front, 0) == 3;
      assert TagLeft(front, 1) == 2;
      assert TagLeft(front, 2) == 1;
    } else {
      TagClosed(front, k - 1);
    }
  }

  lemma {:induction false} TagLeftBehind(front: string, s: string, k: nat)
    requires front != [] && front[|front| - 1] == ',' && TagLeft(front, |front| - 1) == 0 && k <= |s|
    ensures TagLeft(front + s, |front| + k) == TagLeft(s, k)
    decreases k
  {
    if k == 0 {
      TagLeftPrefix(front, s, |front| - 1);
    } else {
      TagLeftBehind(front, s, k - 1);
    }
  }

  lemma {:induction false} TagLeftPrefix(front: string, s: string, k: nat)
    requires k <= |front|
    ensures TagLeft(front + s, k) == TagLeft(front, k)
  {
    if k > 0 { TagLeftPrefix(front, s, k - 1); }
  }

  /** Behind two matching components DNs match exactly if what follows does. */
  lemma SameBehind(front: string, other: string, s: string, t: string)
    requires SameDn(front, other)
    requires front != [] && front[|front| - 1] == ',' && TagLeft(front, |front| - 1) == 0
    ensures SameDn(front + s, other + t) <==> SameDn(s, t)
  {
    var a, b := front + s, other + t;
    forall k | 0 <= k <= |s| ensures TagLeft(a, |front| + k) == TagLeft(s, k) { TagLeftBehind(front, s, k); }
    forall k | 0 <= k <= |front| ensures TagLeft(a, k) == TagLeft(front, k) { TagLeftPrefix(front, s, k); }
    hide TagLeft, Lower;
    if SameDn(a, b) {
      forall k | 0 <= k < |s| ensures Lower(s[k]) == Lower(t[k]) && (TagLeft(s, k) == 0 ==> s[k] == t[k]) {
        assert a[|front| + k] == s[k] && b[|front| + k] == t[k];
      }
    }
  }

  /** A component as a DN writes it: a tag of three bytes, and no comma anywhere. */
  predicate IsComponent(c: string) { |c| >= LDAP_TAG_SIZE && ',' !in c }

  predicate AreComponents(parts: seq<string>) { forall k :: 0 <= k < |parts| ==> IsComponent(parts[k]) }

  /** Tags equal ignoring case, values byte for byte. */
  predicate SameComponent(c: string, d: string)
    requires IsComponent(c) && IsComponent(d)
  {
    EqualIgnoreCase(c[..3], d[..3]) && c[3..] == d[3..]
  }

  lemma LowerComma(c: char)
    ensures Lower(c) == Lower(',') <==> c == ','
  {
  }

  /** One component, alone or with the comma behind it. */
  lemma SameOne(c: string, d: string, end: string)
    requires IsComponent(c) && IsComponent(d) && |c| == |d| && (end == "" || end == ",")
    ensures SameDn(c + end, d + end) <==> SameComponent(c, d)
    ensures end == "," ==> TagLeft(c + end, |c|) == 0
  {
    var s, t := c + end, d + end;
    assert TagLeft(s, 0) == 3 && TagLeft(s, 1) == 2 && TagLeft(s, 2) == 1;
    forall k | 3 <= k <= |c| ensures TagLeft(s, k) == 0 {
      forall i | 3 <= i < k ensures s[i] != ',' { assert s[i] == c[i]; }
      TagClosed(s, k);
    }
    hide TagLeft, Lower;
    if SameDn(s, t) {
      forall k | 0 <= k < 3 ensures Lower(c[..3][k]) == Lower(d[..3][k]) { assert s[k] == c[k] && t[k] == d[k]; }
      forall k | 3 <= k < |c| ensures c[k] == d[k] { assert s[k] == c[k] && t[k] == d[k]; }
    }
    if SameComponent(c, d) {
      forall k | 0 <= k < |s| ensures Lower(s[k]) == Lower(t[k]) && (k >= 3 ==> s[k] == t[k]) {
        if k < 3 {
          assert s[k] == c[..3][k] && t[k] == d[..3][k];
        } else if k < |c| {
          assert s[k] == c[3..][k - 3] && t[k] == d[3..][k - 3];
        }
      }
    }
  }

  /** A comma in one text does not stand opposite another character. */
  lemma CommasOpposite(c: string, d: string, more: string, end: string)
    requires ',' !in d && (more == "" || more[0] == ',') && |c| < |d|
    ensures !EqualIgnoreCase(c + more, d + end) && !EqualIgnoreCase(d + end, c + more)
  {
    var s, t := c + more, d + end;
    LowerComma(d[|c|]);
    if |s| == |t| { assert s[|c|] == ',' && t[|c|] == d[|c|]; }
  }

  lemma SameFront(front: string, other: string, s: string, t: string)
    requires |front| == |other| && SameDn(front + s, other + t)
    ensures SameDn(front, other)
  {
    var a, b := front + s, other + t;
    forall k | 0 <= k <= |front| ensures TagLeft(a, k) == TagLeft(front, k) { TagLeftPrefix(front, s, k); }
    hide TagLeft, Lower;
    forall k | 0 <= k < |front|
      ensures Lower(front[k]) == Lower(other[k]) && (TagLeft(front, k) == 0 ==> front[k] == other[k])
    {
      assert a[k] == front[k] && b[k] == other[k];
    }
  }

  lemma SameFirst(c: string, d: string, more: string, end: string)
    requires IsComponent(c) && IsComponent(d)
    ensures SameDn(c + "," + more, d + "," + end) <==> SameComponent(c, d) && SameDn(more, end)
  {
    var front, other := c + ",", d + ",";
    assert front + more == c + ([','] + more) && other + end == d + ([','] + end);
    if |c| < |d| {
      CommasOpposite(c, d, [','] + more, [','] + end);
    } else if |d| < |c| {
      CommasOpposite(d, c, [','] + end, [','] + more);
    } else {
      SameOne(c, d, ",");
      hide TagLeft, EqualIgnoreCase, SameComponent, IsComponent;
      if SameDn(front + more, other + end) { SameFront(front, other, more, end); }
      if SameDn(front, other) { SameBehind(front, other, more, end); }
    }
  }

  /** Two DNs match exactly if they have the same components in the same order, the tags compared ignoring case and
      everything else byte for byte. */
  lemma {:induction false} SameByComponents(a: seq<string>, b: seq<string>)
    requires a != [] && b != [] && AreComponents(a) && AreComponents(b)
    ensures SameDn(Join(a, ','), Join(b, ',')) <==>
            |a| == |b| && forall k :: 0 <= k < |a| ==> SameComponent(a[k], b[k])
  {
    var c, d := a[0], b[0];
    assert IsComponent(c) && IsComponent(d);
    hide SameDn, SameComponent;
    if |a| > 1 && |b| > 1 {
      SameByComponents(a[1..], b[1..]);
      SameFirst(c, d, Join(a[1..], ','), Join(b[1..], ','));
      assert Join(a, ',') == c + "," + Join(a[1..], ',') && Join(b, ',') == d + "," + Join(b[1..], ',');
      ComponentsBehind(a, b);
    } else {
      LastOne(a, b);
    }
  }

  lemma ComponentsBehind(a: seq<string>, b: seq<string>)
    requires a != [] && b != [] && AreComponents(a) && AreComponents(b)
    ensures (|a| == |b| && forall k :: 0 <= k < |a| ==> SameComponent(a[k], b[k])) <==>
            SameComponent(a[0], b[0]) && |a[1..]| == |b[1..]| && forall k :: 0 <= k < |a[1..]| ==> SameComponent(a[1..][k], b[1..][k])
  {
    hide SameComponent, IsComponent;
    if |a| == |b| {
      forall k | 0 < k < |a| ensures a[k] == a[1..][k - 1] && b[k] == b[1..][k - 1] {}
    }
  }

  lemma LastOne(a: seq<string>, b: seq<string>)
    requires a != [] && b != [] && AreComponents(a) && AreComponents(b) && (|a| == 1 || |b| == 1)
    ensures SameDn(Join(a, ','), Join(b, ',')) <==> |a| == |b| && SameComponent(a[0], b[0])
  {
    var c, d := a[0], b[0];
    assert IsComponent(c) && IsComponent(d);
    if |c| != |d| { SameLengths(c, d); }
    hide SameDn, SameComponent, IsComponent;
    if |a| > 1 {
      assert Join(a, ',') == c + ([','] + Join(a[1..], ','));
      OneIsNotMore(d, c, Join(a[1..], ','));
    } else if |b| > 1 {
      assert Join(b, ',') == d + ([','] + Join(b[1..], ','));
      OneIsNotMore(c, d, Join(b[1..], ','));
    } else if |c| == |d| {
      SameOne(c, d, "");
      assert c + "" == c && d + "" == d;
    }
  }

  lemma SameLengths(c: string, d: string)
    requires IsComponent(c) && IsComponent(d) && |c| != |d|
    ensures !SameDn(c, d) && !SameComponent(c, d)
  {
  }

  lemma OneIsNotMore(c: string, d: string, end: string)
    requires IsComponent(c) && IsComponent(d)
    ensures !SameDn(c, d + ([','] + end)) && !SameDn(d + ([','] + end), c)
  {
    assert c + [] == c;
    if |c| < |d| { CommasOpposite(c, d, [], [','] + end); }
    if |d| < |c| { CommasOpposite(d, c, [','] + end, []); }
  }
}
