/** read_groupdn: the group table of one domain controller turned into the DNs the searches compare with. */
module LdapConfig {
  import opened CText
  import opened SecureC
  import opened Directory
  import DnEscape
  import GroupDn

  const LDAP_GROUPNAME_MAX_LEN := 255
  const LDAP_GROUPFOLDER_MAX_LEN := 255

  /** One configured group; the fixed-size fields of LDAP_AUTH_INFO hold at most 255 bytes. */
  datatype GroupInfo = GroupInfo(innerId: nat, name: CString, folder: CString, priv: nat)

  predicate ValidInfo(info: GroupInfo) {
    1 <= info.innerId <= MAX_USER_GROUP && |info.name| <= LDAP_GROUPNAME_MAX_LEN && |info.folder| <= LDAP_GROUPFOLDER_MAX_LEN
  }

  function ConfiguredDn(info: GroupInfo, domain: CString): string {
    GroupDn.IdealDn(GroupDn.Copied(domain), DnEscape.Escape(info.folder), info.name,
                    GroupDn.TagsOf(GroupDn.LDAP_TAG_CASE_UPPER))
  }

  /** Neither the escaped folder nor the DN outgrows its buffer. */
  predicate DnFits(info: GroupInfo, domain: CString) {
    && |DnEscape.Escape(info.folder)| < LDAP_GROUPFOLDER_MAX_LEN
    && |ConfiguredDn(info, domain)| < GroupDn.LDAP_GROUPDN_MAX_LEN - 1
  }

  /** The folder as escaping leaves it in its buffer of 255 bytes. */
  ghost predicate EscapedFolder(folder: CString, f: string) {
    if |DnEscape.Escape(folder)| < LDAP_GROUPFOLDER_MAX_LEN then f == DnEscape.Escape(folder)
    else DnEscape.AsFarAsItFits(folder, LDAP_GROUPFOLDER_MAX_LEN, f)
  }

  /** The DN built from that folder, as far as its own buffer keeps it. */
  ghost predicate IsBuilt(dn: string, info: GroupInfo, domain: CString) {
    exists f :: EscapedFolder(info.folder, f) && dn == KeptDn(info, domain, f)
  }

  function KeptDn(info: GroupInfo, domain: CString, f: string): string {
    var labels, tags := GroupDn.Copied(domain), GroupDn.TagsOf(GroupDn.LDAP_TAG_CASE_UPPER);
    GroupDn.Kept(labels, GroupDn.IdealDn(labels, f, info.name, tags))
  }

  lemma BuiltWhenFits(dn: string, info: GroupInfo, domain: CString)
    requires DnFits(info, domain)
    ensures IsBuilt(dn, info, domain) <==> dn == ConfiguredDn(info, domain)
  {
    hide DnEscape.Escape, GroupDn.IdealDn, GroupDn.Tokens;
    assert EscapedFolder(info.folder, DnEscape.Escape(info.folder));
    assert KeptDn(info, domain, DnEscape.Escape(info.folder)) == ConfiguredDn(info, domain);
  }

  method BuildDn(info: GroupInfo, domain: CString) returns (dn: Dn)
    requires ValidInfo(info)
    ensures IsBuilt(dn.text, info, domain)
  {
    hide DnEscape.Escape, GroupDn.IdealDn;
    var folder := new char[LDAP_GROUPFOLDER_MAX_LEN + 1](_ => '\0');
    var ret := StrncpyS(folder, 0, folder.Length, info.folder, LDAP_GROUPFOLDER_MAX_LEN);
    assert info.folder[..|info.folder|] == info.folder;
    assert folder[..][..|info.folder|] == folder[0..|info.folder|] == info.folder && folder[..][|info.folder|] == '\0';
    TextEndsAt(folder[..], |info.folder|);
    DnEscape.SpecialCharEscape(folder, LDAP_GROUPFOLDER_MAX_LEN);
    var escaped := StrDup(folder);
    assert EscapedFolder(info.folder, escaped);
    assert GroupDn.Copied(escaped) == escaped;
    var text := new char[GroupDn.LDAP_GROUPDN_MAX_LEN](_ => '\0');
    ret := GroupDn.ParseGroupInfo(domain, escaped, info.name, text, GroupDn.LDAP_TAG_CASE_UPPER);
    var built := StrDup(text);
    assert built == KeptDn(info, domain, escaped);
    dn := Dn(built);
  }

  /** The last of the first n entries with this inner id. */
  function LastWith(infos: seq<GroupInfo>, n: nat, id: nat): (r: Option<nat>)
    requires n <= |infos|
    ensures r.Some? ==> r.value < n && infos[r.value].innerId == id
    ensures r.None? ==> forall i :: 0 <= i < n ==> infos[i].innerId != id
  {
    if n == 0 then None
    else if infos[n - 1].innerId == id then Some(n - 1)
    else LastWith(infos, n - 1, id)
  }

  /** The one found is the last: no later entry has the id. */
  lemma {:induction false} LastWithIsLast(infos: seq<GroupInfo>, n: nat, id: nat)
    requires n <= |infos|
    ensures match LastWith(infos, n, id)
            case None => forall i :: 0 <= i < n ==> infos[i].innerId != id
            case Some(k) => k < n && infos[k].innerId == id && forall i :: k < i < n ==> infos[i].innerId != id
  {
    if n > 0 && infos[n - 1].innerId != id { LastWithIsLast(infos, n - 1, id); }
  }

  ghost predicate SlotHolds(slot: Option<Dn>, infos: seq<GroupInfo>, n: nat, id: nat, domain: CString)
    requires n <= |infos|
  {
    match LastWith(infos, n, id)
    case None => slot.None?
    case Some(i) => slot.Some? && IsBuilt(slot.value.text, infos[i], domain)
  }

  /** Slot k is filled exactly if some entry has inner id k + 1, and then holds the DN of the last such entry. */
  method ReadGroupDn(infos: seq<GroupInfo>, cnt: nat, domain: CString) returns (groups: GroupTable)
    requires cnt <= |infos| && forall i :: 0 <= i < cnt ==> ValidInfo(infos[i])
    ensures forall k :: 0 <= k < MAX_USER_GROUP ==> SlotHolds(groups[k], infos, cnt, k + 1, domain)
  {
    groups := [None, None, None, None, None];
    for n := 0 to cnt
      invariant forall k :: 0 <= k < MAX_USER_GROUP ==> SlotHolds(groups[k], infos, n, k + 1, domain)
    {
      var dn := BuildDn(infos[n], domain);
      groups := groups[infos[n].innerId - 1 := Some(dn)];
    }
  }
}
