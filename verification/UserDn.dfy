/** The user DN do_search_user_group compares members with, against the DN the directory lists the user under. */
module UserDn {
  import opened CText
  import opened SecureC
  import opened DnCompare
  import opened FilterEscape

  const LDAP_USERDN_MAX_LEN := 766

  function Tag(withUid: bool): string { if withUid then "UID=" else "CN=" }

  /** What the code composes from a name and the base DN, as far as its buffer holds it. */
  function Composed(name: CString, base: CString, withUid: bool): CString {
    var dn := Tag(withUid) + name + [','] + base;
    dn[..Min(|dn|, LDAP_USERDN_MAX_LEN - 1)]
  }

  /** The DN looked for: composed from the name as escaped for the search filter. */
  function Compared(username: CString, base: CString, withUid: bool): CString {
    EscapeNoNul(username);
    Composed(Escape(username), base, withUid)
  }

  // ---- the DN the directory lists the user under ----

  /** The characters an attribute value needs a backslash for inside a DN (section 2.4 of RFC 4514): some anywhere, a
      space or '#' in front, a space at the end. */
  predicate NeedsBackslash(s: string, i: nat)
    requires i < |s|
  {
    || s[i] == ',' || s[i] == '+' || s[i] == '"' || s[i] == '\\' || s[i] == '<' || s[i] == '>' || s[i] == ';'
    || (i == 0 && (s[i] == ' ' || s[i] == '#'))
    || (i == |s| - 1 && s[i] == ' ')
  }

  function RdnFrom(s: string, i: nat): string
    requires i <= |s|
    decreases |s| - i
  {
    if i == |s| then [] else (if NeedsBackslash(s, i) then ['\\', s[i]] else [s[i]]) + RdnFrom(s, i + 1)
  }

  /** A value as a DN writes it. */
  function Rdn(s: string): string { RdnFrom(s, 0) }

  /** An attribute type with its '='. */
  predicate IsTag(tag: string) { tag != [] && tag[|tag| - 1] == '=' && '=' !in tag[..|tag| - 1] }

  /** The directory may hold the user under any attribute type and anywhere below the search base. */
  datatype Place = Place(tag: string, parent: string)

  function OwnDn(username: string, place: Place): string {
    place.tag + Rdn(username) + [','] + place.parent
  }

  // ---- names that both escapes leave alone ----

  predicate Touched(s: string, i: nat)
    requires i < |s|
  {
    Special(s[i]) || NeedsBackslash(s, i)
  }

  predicate PlainUpTo(s: string, n: nat)
    requires n <= |s|
  {
    forall i :: 0 <= i < n ==> !Touched(s, i)
  }

  /** None of ( ) * \ and , + " < > ; and no space or '#' in front or space at the end. */
  predicate RdnPlain(s: string) { PlainUpTo(s, |s|) }

  function FirstTouched(s: string, from: nat): (n: nat)
    requires from <= |s| && PlainUpTo(s, from)
    ensures n <= |s| && PlainUpTo(s, n) && (n < |s| ==> Touched(s, n))
    decreases |s| - from
  {
    if from == |s| || Touched(s, from) then from else FirstTouched(s, from + 1)
  }

  lemma {:induction false} RdnFront(s: string, i: nat, n: nat)
    requires i <= n <= |s| && PlainUpTo(s, n)
    ensures RdnFrom(s, i) == s[i..n] + RdnFrom(s, n)
    decreases n - i
  {
    if i < n {
      assert !Touched(s, i);
      hide NeedsBackslash, PlainUpTo;
      RdnFront(s, i + 1, n);
      var rest := RdnFrom(s, n);
      assert RdnFrom(s, i) == [s[i]] + RdnFrom(s, i + 1);
      hide RdnFrom;
      assert s[i..n] + rest == [s[i]] + (s[i + 1..n] + rest);
    }
  }

  lemma PlainFront(s: string, n: nat)
    requires n <= |s| && PlainUpTo(s, n)
    ensures Plain(s[..n])
  {
    forall i | 0 <= i < n ensures !Special(s[..n][i]) { assert !Touched(s, i); }
  }

  /** Both escapes keep the text up to the first touched character and then write different ones. */
  lemma EscapesPart(s: string, n: nat) returns (t: string, u: string)
    requires n < |s| && PlainUpTo(s, n) && Touched(s, n)
    ensures Escape(s) == s[..n] + t && Rdn(s) == s[..n] + u
    ensures exists k :: 0 <= k < |t| && k < |u| && Lower(t[k]) != Lower(u[k])
  {
    var c, rest := s[n], s[n + 1..];
    PlainFront(s, n);
    assert s == s[..n] + ([c] + rest);
    EscapeFront(s[..n], [c] + rest);
    EscapeFirst(c, rest);
    RdnFront(s, 0, n);
    assert s[0..n] == s[..n];
    t, u := EscapeByte(c) + Escape(rest), RdnFrom(s, n);
    if c == '\\' {
      assert t[1] == '5' && u[1] == '\\';
    } else if Special(c) && !NeedsBackslash(s, n) {
      assert t[0] == '\\' && u[0] == c;
    } else {
      assert t[0] == c && u[0] == '\\';
    }
  }

  lemma PlainIsKept(s: string)
    requires RdnPlain(s)
    ensures Escape(s) == s && Rdn(s) == s && ',' !in s
  {
    PlainFront(s, |s|);
    assert s[..|s|] == s && s + [] == s && s[0..|s|] == s;
    EscapeFront(s, []);
    RdnFront(s, 0, |s|);
    forall i | 0 <= i < |s| ensures s[i] != ',' { assert !Touched(s, i); }
  }

  // ---- comparing DNs piece by piece ----

  lemma SameDnReflexive(s: string)
    ensures SameDn(s, s)
  {
  }

  /** A difference behind a shared front. */
  lemma FrontsDiffer(front: string, other: string, s: string, t: string, k: nat, more: string, end: string, max: nat)
    requires |front| == |other| && k < |s| && k < |t| && Lower(s[k]) != Lower(t[k])
    ensures var full := front + s + more; !SameDn(full[..Min(|full|, max)], other + t + end)
  {
    var full := front + s + more;
    var cut := full[..Min(|full|, max)];
    assert full[|front| + k] == s[k] && (other + t + end)[|front| + k] == t[k];
    if |cut| == |other + t + end| { assert cut[|front| + k] == full[|front| + k]; }
  }

  /** Tags of different attribute types differ. */
  lemma TagsDiffer(tag: string, other: string)
    requires IsTag(tag) && IsTag(other) && !EqualIgnoreCase(tag, other)
    ensures exists k :: 0 <= k < |tag| && k < |other| && Lower(tag[k]) != Lower(other[k])
  {
    LowerEquals();
    if |tag| < |other| {
      assert other[..|other| - 1][|tag| - 1] != '=';
    } else if |other| < |tag| {
      assert tag[..|tag| - 1][|other| - 1] != '=';
    }
  }

  lemma LowerEquals()
    ensures forall c :: Lower(c) == Lower('=') <==> c == '='
  {
  }

  // ---- when the search looks for the user's own DN ----

  /** Room for the parent behind the tag, the name and the comma. */
  function RoomBehind(username: string, withUid: bool): int {
    LDAP_USERDN_MAX_LEN - 1 - (|Tag(withUid)| + |username| + 1)
  }

  /** The name is plain, the directory names users by the attribute the code assumes, and the base DN, as far as it
      fits behind the name, is the entry's parent. */
  predicate FindsOwnDn(username: string, base: string, withUid: bool, place: Place) {
    && RdnPlain(username) && EqualIgnoreCase(place.tag, Tag(withUid))
    && RoomBehind(username, withUid) >= 0
    && SameDn(base[..Min(|base|, RoomBehind(username, withUid))], place.parent)
  }

  lemma Regroup5(a: string, b: string, c: string, d: string, e: string)
    ensures a + (b + c) + d + e == (a + b) + c + (d + e) == a + (b + c + d + e)
  {
  }

  /** A name either escape touches is never found. */
  lemma TouchedNameDiffers(username: CString, base: CString, withUid: bool, place: Place)
    requires !RdnPlain(username) && |place.tag| == |Tag(withUid)|
    ensures !SameDn(Compared(username, base, withUid), OwnDn(username, place))
  {
    var n := FirstTouched(username, 0);
    var u := username[..n];
    var s, t := EscapesPart(username, n);
    var k :| 0 <= k < |s| && k < |t| && Lower(s[k]) != Lower(t[k]);
    hide Escape, Rdn, Lower, SameDn, Tag, Min, Touched;
    Regroup5(Tag(withUid), u, s, [','], base);
    Regroup5(place.tag, u, t, [','], place.parent);
    FrontsDiffer(Tag(withUid) + u, place.tag + u, s, t, k, [','] + base, [','] + place.parent, LDAP_USERDN_MAX_LEN - 1);
  }

  lemma OtherTagDiffers(username: CString, base: CString, withUid: bool, place: Place)
    requires IsTag(place.tag) && !EqualIgnoreCase(place.tag, Tag(withUid))
    ensures !SameDn(Compared(username, base, withUid), OwnDn(username, place))
  {
    var tag, e, r := Tag(withUid), Escape(username), Rdn(username);
    TagsDiffer(tag, place.tag);
    hide Escape, Rdn, Lower, SameDn, Tag, Min, IsTag, EqualIgnoreCase;
    var k :| 0 <= k < |tag| && k < |place.tag| && Lower(tag[k]) != Lower(place.tag[k]);
    assert tag + (e + [','] + base) == tag + e + [','] + base;
    assert place.tag + (r + [','] + place.parent) == OwnDn(username, place);
    TagTextsDiffer(tag, place.tag, k, e + [','] + base, r + [','] + place.parent, LDAP_USERDN_MAX_LEN - 1);
  }

  lemma TagTextsDiffer(s: string, t: string, k: nat, more: string, end: string, max: nat)
    requires k < |s| && k < |t| && Lower(s[k]) != Lower(t[k])
    ensures var full := s + more; !SameDn(full[..Min(|full|, max)], t + end)
  {
    FrontsDiffer([], [], s, t, k, more, end, max);
    assert [] + s == s && [] + t == t;
  }

  lemma PlainNameIs(username: CString, base: CString, withUid: bool, place: Place)
    requires RdnPlain(username) && EqualIgnoreCase(place.tag, Tag(withUid)) && IsTag(place.tag)
    ensures SameDn(Compared(username, base, withUid), OwnDn(username, place)) <==>
            RoomBehind(username, withUid) >= 0 && SameDn(base[..Min(|base|, RoomBehind(username, withUid))], place.parent)
  {
    PlainIsKept(username);
    var front, other, room := Tag(withUid) + username + [','], place.tag + username + [','], RoomBehind(username, withUid);
    FrontMatches(username, withUid, place.tag);
    hide Escape, Rdn, SameDn, TagLeft, RdnPlain, EqualIgnoreCase;
    if room >= 0 {
      assert Compared(username, base, withUid) == front + base[..Min(|base|, room)];
      SameBehind(front, other, base[..Min(|base|, room)], place.parent);
    } else {
      OtherLength(Compared(username, base, withUid), OwnDn(username, place));
    }
  }

  lemma FrontMatches(username: string, withUid: bool, tag: string)
    requires RdnPlain(username) && EqualIgnoreCase(tag, Tag(withUid)) && IsTag(tag)
    ensures var front, other := Tag(withUid) + username + [','], tag + username + [','];
            SameDn(front, other) && TagLeft(front, |front| - 1) == 0
  {
    FrontCloses(username, withUid);
    var front, other := Tag(withUid) + username + [','], tag + username + [','];
    hide RdnPlain, TagLeft;
    forall k | 0 <= k < |front| ensures Lower(front[k]) == Lower(other[k]) && (k >= LDAP_TAG_SIZE ==> front[k] == other[k]) {}
    forall k | 0 <= k < |front| && TagLeft(front, k) == 0 ensures k >= LDAP_TAG_SIZE { TagOpen(front, k); }
  }

  lemma FrontCloses(username: string, withUid: bool)
    requires RdnPlain(username)
    ensures var front := Tag(withUid) + username + [',']; TagLeft(front, |front| - 1) == 0
  {
    PlainIsKept(username);
    var front := Tag(withUid) + username + [','];
    hide RdnPlain, TagLeft;
    forall i | LDAP_TAG_SIZE <= i < |front| - 1 ensures front[i] != ',' {
      assert front[i] == if i < |Tag(withUid)| then '=' else username[i - |Tag(withUid)|];
    }
    TagClosed(front, |front| - 1);
  }

  /** The first three bytes belong to the opening tag. */
  lemma TagOpen(s: string, k: nat)
    requires k < |s| && TagLeft(s, k) == 0
    ensures k >= LDAP_TAG_SIZE
  {
    assert TagLeft(s, 0) == 3;
    if k == 1 || k == 2 { assert TagLeft(s, 1) == 2; }
  }

  lemma OtherLength(s: string, t: string)
    requires |s| != |t|
    ensures !SameDn(s, t)
  {
  }

  /** For every name, base and place of the user in the directory: the DN looked for matches the user's own DN exactly
      under the condition above. */
  lemma ComposedDnIsOwn(username: CString, base: CString, withUid: bool, place: Place)
    requires IsTag(place.tag)
    ensures SameDn(Compared(username, base, withUid), OwnDn(username, place)) <==> FindsOwnDn(username, base, withUid, place)
  {
    if !EqualIgnoreCase(place.tag, Tag(withUid)) {
      OtherTagDiffers(username, base, withUid, place);
    } else if !RdnPlain(username) {
      TouchedNameDiffers(username, base, withUid, place);
    } else {
      PlainNameIs(username, base, withUid, place);
    }
  }

  /** A user directly below the base is found exactly if the name is plain and the own DN fits the buffer; and when the
      composed DN fits, exactly if the name is plain and the base is the entry's parent. */
  lemma OwnDnBelowBase(username: CString, base: CString, withUid: bool, parent: string)
    ensures var place := Place(Tag(withUid), base);
            SameDn(Compared(username, base, withUid), OwnDn(username, place)) <==>
            RdnPlain(username) && |OwnDn(username, place)| < LDAP_USERDN_MAX_LEN
    ensures |Tag(withUid) + Escape(username) + [','] + base| < LDAP_USERDN_MAX_LEN ==>
              (SameDn(Compared(username, base, withUid), OwnDn(username, Place(Tag(withUid), parent))) <==>
               RdnPlain(username) && SameDn(base, parent))
  {
    ComposedDnIsOwn(username, base, withUid, Place(Tag(withUid), base));
    ComposedDnIsOwn(username, base, withUid, Place(Tag(withUid), parent));
    var room := RoomBehind(username, withUid);
    SameDnReflexive(base);
    if RdnPlain(username) { PlainIsKept(username); }
    hide SameDn, RdnPlain, Escape, Rdn;
    if 0 <= room < |base| { OtherLength(base[..room], base); }
    if |base| <= room { assert base[..|base|] == base; }
  }
}
