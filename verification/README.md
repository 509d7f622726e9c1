# Identity and access core: a verified model

This project models the C and Lua core behind logins on a board management controller and proves what it decides:

- **LDAP groups and privileges** (`FiniteSets`, `Directory`, `Chains`, `DnCompare`, `Footprint`, `MemberOfSearch`, `MemberOfExact`, `MemberOfLimits`, `MemberSearch`,
  `MemberSearchCaps`, `Membership`, `LdapConfig`, `UserDn`, `LdapLogin`). Two recursive searches walk an arbitrary, possibly cyclic directory under a cap of 2000 visited
  DNs and a nesting cap of 50. The upward search follows `memberOf`, the downward one `member`. Their marks are folded into
  one privilege. Each method is proved equal to a function over the directory read as a graph, that function is related
  to routes in the graph, and the routes to chains of values in the server's answers themselves (`Membership`).
- **Lockout** (`FailureBuffer`, `LockDecision`, `UserTally`, `LockRun`, `IpAddress`, `IpLock`, `IpLockMixed`). Bounded buffers that overwrite their oldest
  record are proved to decide like the unbounded history of failures, over every run of attempts on a clock that does not run
  back. On top sit the capped table of tracked addresses and the record directory.
- **LDAP user slots** (`LdapSlots`). The slot file is proved to be a lowest-free-id allocator.
- **Text transformations with inverses** (`CText`, `SecureC`, `FilterEscape`, `DnEscape`, `GroupDn`, `Hex`, `Ipv6Text`,
  `Ipv6Normalize`). Escaping in a growing buffer, DN construction under truncation, filter escaping, and the IPv6 shortener
  with the normaliser.
- **Login decisions** (`Subnet`, `LoginRule`, `UserFile`, `UserFileText`). Subnet matching by bytes, shifts and masks, packed time windows,
  the combination of three login rules, and the two independent readers of the user file.

C strings are sequences of characters without the terminator; pointers into them are indices, and reading is allowed up to and
including the terminator. Integer widths and wrap-around are written out wherever a value can reach them: `gint16` value
counts, `guint8` thresholds and numbers, `gint32` ids, 64-bit times. `long` is 64 bits wide and the processor little-endian.
Foreign answers are parameters: the answers of the LDAP server (fixed during one login), the clock, the lockout settings,
whether files can be opened, what scanning a time rule's text yields, and which address and MAC rules admit the caller.

## Where the code differs from what one would expect

Each of these is modelled as the code has it, and proved.

- A group search advances from the head of the answer instead of the current entry, so it reads at most two entries
  (`ldap_auth.c:1295`), and the values are counted in 16 bits. When nothing is lost that way is the subject of
  `MemberOfLimits.ReadsEveryEntry` and `MemberOfLimits.ReadsEveryValue`; `MemberOfLimits.ThirdEntryIsNotRead` shows a group
  that is lost.
- Beyond 50 nested groups a user's group is not marked, nor are all of more than 2000: `MemberOfLimits.DistantGroupIsMissed`,
  `MemberOfLimits.ManyGroupsAreNotAllMarked`. The sharp bound is `MemberOfLimits.ExactUpToDepth`.
- The downward search shares one visited set among the five configured groups, so a group that does hold the user stays
  unmarked when its DN was visited on the way to an earlier one: `MemberSearch.VisitedGroupIsMissed`. The exact condition is
  in `MemberSearch.SearchByUsernameMarks`, and one on the directory alone in `MemberSearch.ApartGroupIsMarked`.
- The downward search looks for a DN composed from the name as escaped for the search filter, directly below the search base.
  A user whose name holds one of ( ) * \ or one of , + " < > ; or starts with a space or '#' or ends with a space, or whose
  entry lies deeper than the base or is named by another attribute, is therefore never found under the own DN:
  `UserDn.ComposedDnIsOwn`, `LdapLogin.ListedUserIsFound`.
- An IP lock with a failure interval longer than the time of the latest failure wraps around and never engages:
  `LockDecision.IpDecisionIsHistory`.
- The IP threshold is narrowed to a byte, so 257 locks after one failure and 200 never locks:
  `LockRun.NarrowedThresholdMisjudges`, `LockRun.ThresholdIsKeptUpToCapacity`.
- With an interval longer than the lock plus one second, an expired lock engages again after one failure:
  `LockRun.LongIntervalRelocksEarly`.
- A bracketed text whose content holds a single colon or starts with a bracket leaves a record that cleaning everything does
  not remove: `IpLock.CleanAllLeavesUnstable`, `IpLock.UnacceptableTextSurvives`; one such text is in `IpLock.BracketedColonIsUnacceptable`.
- Allocating a slot behind the last one starts from a copy of the last slot's data: `LdapSlots.AppendedSlotCopiesPredecessor`.
- An IPv6 text that starts with "::", unless the address is all zero, is normalised to a different address:
  `Ipv6Normalize.NormalizeAgrees`. The shortener produces such texts: `Ipv6Normalize.NormalizeShort`.
- Date rules keep only the low byte of a year: `LoginRule.YmdIsCalendarInOneBlock`.
- The comma in front of `UID=` is escaped, unlike the commas in front of the two-letter tags: `DnEscape.CommaBeforeTag`.
- The range test of `parse_line_token_to_uint8` never fires, because it compares a value already narrowed to a byte:
  `UserFile.ParseLineTokenToUint8`.

## Model

| member | source | states |
|---|---|---|
| DnCompare.CompareWithoutTag | libiam/lualib-src/iam_core/ldap_auth.c:971-1020 | for all pairs, null pointers included: OK exactly when both are equal ignoring case and byte-equal outside the three bytes of a tag opening each component; nothing beyond a terminator is read |
| DnCompare.SameDnSymmetric | libiam/lualib-src/iam_core/ldap_auth.c:971-1020 | the comparison does not depend on the order of its arguments although only one string drives the tag counter |
| DnCompare.SameDnTransitive | libiam/lualib-src/iam_core/ldap_auth.c:971-1020 | two DNs that both match a third match each other |
| DnCompare.SameDnBetween | libiam/lualib-src/iam_core/ldap_auth.c:971-1020 | equal DNs match, and matching DNs are equal ignoring case; both inclusions are strict |
| DnCompare.SameByComponents | libiam/lualib-src/iam_core/ldap_auth.c:971-1020 | two DNs match exactly if they have the same components in the same order, three tag bytes compared ignoring case and the rest byte for byte |
| Footprint.NameTable.Check | libiam/lualib-src/iam_core/ldap_auth.c:1022-1042 | a DN is searched exactly if it is fresh, the table holds fewer than 2000 DNs and the nesting is at most 50 |
| MemberOfSearch.SearchGroupOwner | libiam/lualib-src/iam_core/ldap_auth.c:1234-1339 | the recursive upward search, marking in place, terminates on every directory and leaves the visited set, marks, refusals and result of the recursive definition on the graph |
| MemberOfSearch.SearchAbove | libiam/lualib-src/iam_core/ldap_auth.c:1290-1336 | the loop over an answer reads the entry at its head and the one after it, and nothing else |
| MemberOfSearch.SearchUserEntries | libiam/lualib-src/iam_core/ldap_auth.c:1377-1402 | the loop over the user's entries, unlike the one above, reads every entry of the answer |
| MemberOfSearch.SearchByMemberOf | libiam/lualib-src/iam_core/ldap_auth.c:1346-1455 | the whole upward search from the user's entries, with its result code |
| MemberOfExact.OwnerFollowsRoutes | libiam/lualib-src/iam_core/ldap_auth.c:1234-1339 | every DN a search newly visits lies on a route from its start that avoids what was visited before and respects the nesting cap |
| MemberOfSearch.OwnerExplores | libiam/lualib-src/iam_core/ldap_auth.c:1234-1339 | a search marks exactly the groups named by the DNs it newly visits, succeeds exactly if there is one, and without a refusal leaves nothing unvisited above them |
| MemberOfExact.MemberOfIsExact | libiam/lualib-src/iam_core/ldap_auth.c:1346-1411 | unless a cap refused a fresh DN, group i is marked if and only if a DN reachable from the user's memberOf values through the entries and values the code reads names it; with refusals every mark is still right |
| MemberOfExact.MemberOfSuccessIffMarked | libiam/lualib-src/iam_core/ldap_auth.c:1416-1494 | SUCCESS is returned exactly when some entry was set, so the fallback search starts from an untouched array |
| MemberOfExact.MemberOfStaysCapped | libiam/lualib-src/iam_core/ldap_auth.c:1022-1042 | at most 2000 DNs are visited, each at the end of a chain of at most 50 from the user |
| MemberOfExact.ShortChainsAreNotRefused | libiam/lualib-src/iam_core/ldap_auth.c:1022-1042 | the caps refuse nothing when at most 2000 DNs lie above the user and no chain without repetition is longer than 50 |
| MemberOfExact.FewGroupsAreNotRefused | libiam/lualib-src/iam_core/ldap_auth.c:1022-1042 | the caps refuse nothing when at most 50 DNs are reachable |
| MemberOfLimits.MissedIffNotNamed | libiam/lualib-src/iam_core/ldap_auth.c:1234-1411 | whatever the caps do, a configured DN above the user is missed exactly if no visited DN names it, and what is visited does not depend on the table |
| MemberOfLimits.ExactIffAllNamed | libiam/lualib-src/iam_core/ldap_auth.c:1234-1411 | the search is exact for every table if and only if every DN above the user is named by a visited one |
| MemberOfLimits.DistantGroupIsMissed | libiam/lualib-src/iam_core/ldap_auth.c:1245-1257 | every group above the user that no chain of at most 50 leads to is missed |
| MemberOfLimits.ManyGroupsAreNotAllMarked | libiam/lualib-src/iam_core/ldap_auth.c:1022-1042 | of more than 2000 different groups above the user at least one is missed |
| MemberOfLimits.DeepGroupIsMissed | libiam/lualib-src/iam_core/ldap_auth.c:1245-1257 | a directory in which the user belongs to a configured group behind 50 others and that group is not marked |
| MemberOfLimits.ExactUpToDepth | libiam/lualib-src/iam_core/ldap_auth.c:1022-1411 | the search is exact on every directory with at most n DNs above the user if and only if n is at most 50 |
| MemberOfLimits.ReadsEveryEntry | libiam/lualib-src/iam_core/ldap_auth.c:1283-1336 | a group search reads every entry of its answer if and only if there is at most one, or two of which the first comes at the head |
| MemberOfLimits.ReadsEveryValue | libiam/lualib-src/iam_core/ldap_auth.c:1310-1331 | every memberOf value of an entry is read if and only if there are fewer than 32768 |
| MemberOfLimits.ThirdEntryIsNotRead | libiam/lualib-src/iam_core/ldap_auth.c:1295 | for any two different groups an answer whose third entry names the second one, which stays unmarked |
| Membership.StartsFromEveryValue | libiam/lualib-src/iam_core/ldap_auth.c:1377-1402 | the upward search starts from exactly the values, in front of the 16-bit cut, of every entry of the answer to the user search |
| Membership.OwnersInOrder | libiam/lualib-src/iam_core/ldap_auth.c:1377-1402 | and takes them in the order of the entries and of the values |
| Membership.OwnersOfOneEntry | libiam/lualib-src/iam_core/ldap_auth.c:1392-1398 | of one entry all values, in their order, when there are fewer than 32768 |
| Membership.ClimbsToEveryValue | libiam/lualib-src/iam_core/ldap_auth.c:1283-1336 | above a group are exactly the values of those entries of its answer between which and the head no other entry lies |
| Membership.ClimbsInOrder | libiam/lualib-src/iam_core/ldap_auth.c:1283-1336 | first those of the head, then those of the entry after it |
| Membership.MemberOfFollowsAnswers | libiam/lualib-src/iam_core/ldap_auth.c:1346-1455 | in terms of the answers alone: with no refusal exactly the groups named at the end of a chain of values are marked and the result is SUCCESS if there is one, UNKNOWN otherwise; with refusals every mark is right |
| Membership.EveryValueCounts | libiam/lualib-src/iam_core/ldap_auth.c:1392-1398 | with no refusal every group named by any value of any entry of the user is marked |
| MemberSearch.SearchUserGroup | libiam/lualib-src/iam_core/ldap_auth.c:1047-1140 | the recursive downward search with its early exit, equal to the recursive definition on the graph |
| MemberSearch.FindIsExact | libiam/lualib-src/iam_core/ldap_auth.c:1047-1140 | with no refusal, one downward search succeeds if and only if some route to a group that lists the user avoids every DN visited before |
| MemberSearch.FoundEarly | libiam/lualib-src/iam_core/ldap_auth.c:1127-1134 | once a member has led to the user, later members are not visited |
| Membership.DescendsToEveryMember | libiam/lualib-src/iam_core/ldap_auth.c:1096-1117 | below a group are exactly the members carried by the first entry of its answer, in their order |
| Membership.EveryMemberCounts | libiam/lualib-src/iam_core/ldap_auth.c:1117-1123 | an accepted search of a group that carries the user at any place among its members succeeds and visits nothing but the group |
| Membership.LeadsIsListedBelow | libiam/lualib-src/iam_core/ldap_auth.c:1047-1140 | leading to the user in the graph is a chain of members in the answers that ends in a DN matching the user's |
| MemberSearch.SearchByUsername | libiam/lualib-src/iam_core/ldap_auth.c:1187-1228 | the five rounds over the configured groups with the shared visited and found sets |
| MemberSearch.RoundsKeepInvariant | libiam/lualib-src/iam_core/ldap_auth.c:1187-1228 | after every round: marks are right, success means some group so far holds the user, and until the first success everything visited is exhausted |
| MemberSearch.SearchByUsernameIsSound | libiam/lualib-src/iam_core/ldap_auth.c:1187-1228 | with no refusal, SUCCESS if and only if some configured group transitively holds the user, and the lowest-indexed such group is marked; no marked group is ever wrong |
| Membership.SearchFollowsAnswers | libiam/lualib-src/iam_core/ldap_auth.c:1187-1228 | the same in terms of the answers alone, through chains of members |
| MemberSearch.SearchByUsernameMarks | libiam/lualib-src/iam_core/ldap_auth.c:1187-1228 | with no refusal, group j is marked if and only if it was found before under the same DN, or still has a route to the user that avoids what the earlier rounds visited |
| MemberSearch.SameDnIsMarkedTwice | libiam/lualib-src/iam_core/ldap_auth.c:1196-1206 | of two slots configured with the same DN the second is marked whenever the first is |
| MemberSearch.ApartGroupIsMarked | libiam/lualib-src/iam_core/ldap_auth.c:1187-1228 | a condition on the directory alone: with no refusal a group is marked if the user can be reached from it without touching what lies within 51 DNs of an earlier configured group that itself holds the user |
| MemberSearch.FindFollowsRoutes | libiam/lualib-src/iam_core/ldap_auth.c:1047-1140 | every DN a downward search newly visits lies on a route from its start that avoids what was visited before and respects the nesting cap |
| MemberSearch.RoundsStayCapped | libiam/lualib-src/iam_core/ldap_auth.c:1022-1228 | the five rounds together visit at most 2000 DNs, each at the end of a chain of at most 51 from a configured group |
| MemberSearch.VisitedGroupIsMissed | libiam/lualib-src/iam_core/ldap_auth.c:1187-1228 | for any two distinct groups, one nested in the other, a directory and a table order in which a group that lists the user directly stays unmarked |
| MemberSearchCaps.SmallDirectoryIsSearchedExactly | libiam/lualib-src/iam_core/ldap_auth.c:1047-1228 | with at most 2000 DNs below the configured groups and no chain of more than 51 the caps refuse nothing, and SUCCESS means exactly that some configured group holds the user |
| LdapConfig.ReadGroupDn | libiam/lualib-src/iam_core/ldap_auth_parse_info.c:300-345 | slot k is filled exactly when some entry has inner id k + 1, and then holds the DN built from the last such entry, as far as the two buffers keep the escaped folder and the DN |
| LdapConfig.LastWithIsLast | libiam/lualib-src/iam_core/ldap_auth_parse_info.c:309-341 | no later entry has the inner id of the one a slot is filled from |
| LdapConfig.BuiltWhenFits | libiam/lualib-src/iam_core/ldap_auth_parse_info.c:300-345 | when escaped folder and DN fit, the DN built is the configured one and no other |
| UserDn.ComposedDnIsOwn | libiam/lualib-src/iam_core/ldap_auth.c:1071-1081 | for every name, base and place of the user: the DN compared with members is the one the directory lists the user under if and only if neither the filter nor the DN escape touches the name, the directory names the user by the attribute the code assumes, and the base, as far as it fits the buffer, is the parent of the user's entry |
| UserDn.OwnDnBelowBase | libiam/lualib-src/iam_core/ldap_auth.c:1071-1081 | directly below the base that is: the name is plain and the DN has at most 765 bytes; and for any parent, when the composed DN fits: the name is plain and the base is the parent |
| LdapLogin.ListedUserIsFound | libiam/lualib-src/iam_core/ldap_auth.c:1460-1497 | with one configured group that lists the user's own DN, the login succeeds if and only if that condition holds, so every other user is missed |
| LdapLogin.GetUserGroup | libiam/lualib-src/iam_core/ldap_auth.c:1460-1497 | escaping, then the upward search, then the downward one, on one group array |
| LdapLogin.ResolvePrivilege | libiam/lualib-src/iam_core/ldap_auth.c:1985-2007 | the nested loops yield the greatest privilege other than 0x0f among the marked entries, or 0x0f, and copy exactly the marks some entry points at |
| LdapLogin.Authenticate | libiam/lualib-src/iam_core/ldap_auth.c:1968-2014 | a failed bind or search leaves the privilege at 0x0f and the caller's group array alone; otherwise the top granted privilege is returned |
| LdapLogin.MarksAreMemberships | libiam/lualib-src/iam_core/ldap_auth.c:1460-1497 | whichever search set a mark and whatever the caps did, a DN reachable from the user's memberOf values names the marked group, or the group transitively lists the DN composed for the user |
| LdapLogin.LongNameFails | libiam/lualib-src/iam_core/ldap_auth.c:1472-1477 | a name too long for the filter fails with ERROR and marks nothing |
| LdapLogin.FallbackIsExact | libiam/lualib-src/iam_core/ldap_auth.c:1480-1497 | for every server and every name that fits: whenever the memberOf search does not succeed and the fallback refuses nothing, SUCCESS if and only if a chain of members leads from a configured group to the composed DN, and the first such group is marked; every mark is such a group whatever is refused |
| LdapLogin.LoginIsExact | libiam/lualib-src/iam_core/ldap_auth.c:1460-1497 | over both searches with no refusal: SUCCESS if and only if a chain of memberOf values leads from the user to a configured group or a chain of members leads from one to the user |
| LdapLogin.LoginIsExactOnSmallDirectory | libiam/lualib-src/iam_core/ldap_auth.c:1022-1042 | conditions on the directory alone under which neither search refuses anything |
| LdapLogin.NoPrivilegeWithoutGroup | libiam/lualib-src/iam_core/ldap_auth.c:1968-2014 | every privilege other than 0x0f is that of a configured group reached from the user's memberOf values or transitively listing the DN composed for the user |
| LdapLogin.PrivilegeIsHighestReached | libiam/lualib-src/iam_core/ldap_auth.c:1968-2014 | on the memberOf path with distinct inner ids and no refusal, the privilege is the maximum over the configured groups the user reaches, whatever the order of the table |
| LdapLogin.ReachesByChain | libiam/lualib-src/iam_core/ldap_auth.c:1346-1411 | reaching a DN is a chain of memberOf values in the answers that ends in one matching it |
| LdapLogin.FallbackPrivilege | libiam/lualib-src/iam_core/ldap_auth.c:1968-2014 | on the fallback path with no refusal the privilege is the highest one over exactly the configured groups that still lead to the user when their turn comes |
| LdapLogin.FallbackPrivilegeIsHighestListed | libiam/lualib-src/iam_core/ldap_auth.c:1968-2014 | and the highest one over all groups that list the user when each of them leads there apart from what lies near earlier such groups |
| FailureBuffer.UpdateRecord | libiam/lualib-src/iam_core/ip_lock/ip_lock.c:124-150 | a failure is appended while fewer than 100 are stored, and otherwise replaces the first oldest record |
| FailureBuffer.TallyData.UpdateTally | libiam/lualib-src/pam_tally_ext.c:245-281 | the same for the growing records of one user up to 1024, names and status bits included |
| FailureBuffer.PushedRecords | libiam/lualib-src/iam_core/ip_lock/ip_lock.c:124-150 | record by record: the earlier ones and the new one behind them, or the new one in the place of the first oldest at the capacity |
| LockDecision.LockStatus | libiam/lualib-src/iam_core/ip_lock/ip_lock.c:405-430 | the two loops compute the latest time and the 64-bit window count of the lock decision |
| LockDecision.GetUserInfo | libiam/lualib-src/pam_tally_ext.c:140-192 | the two loops over the valid records compute the count and the time of `UserTally`, zero once the lock time has passed |
| UserTally.TallyOfRecords | libiam/lualib-src/pam_tally_ext.c:160-188 | on the records alone: while the lock time after the latest valid record has not passed, the time reported is that record's and the count that of the valid records inside the window before it, 300 seconds longer than the lock when no interval is given; afterwards both are zero |
| UserTally.TallyIsHistory | libiam/lualib-src/pam_tally_ext.c:160-188 | on the history: the last failure's time and the number of failures in the window before it, up to 1024, whichever 1024 records the buffer kept in whatever order |
| UserTally.TallyAfterRun | libiam/lualib-src/pam_tally_ext.c:160-281 | so after every run of recorded failures at nondecreasing times |
| UserTally.U64IsModulo | libiam/lualib-src/pam_tally_ext.c:163-187 | conversion to 64 bits keeps a number up to a multiple of 2 to the 64 |
| LockDecision.BufferIsWindow | libiam/lualib-src/iam_core/ip_lock/ip_lock.c:124-150 | after any run of failures at nondecreasing times the stored times are, as a multiset, the last min(n, max) of the history |
| LockDecision.IpDecisionIsHistory | libiam/lualib-src/iam_core/ip_lock/ip_lock.c:229-430 | for every threshold the decision over 100 records locks if and only if the whole history does with the threshold narrowed to a byte, the narrowed threshold is at most 100 and the window does not reach back before the epoch |
| LockRun.NarrowedThresholdMisjudges | libiam/lualib-src/iam_core/ip_lock/ip_lock.c:229-250 | for every threshold above 100 a history on which the decision is wrong: it locks after threshold modulo 256 failures when that is 1..100, and otherwise never |
| LockRun.ThresholdIsKeptUpToCapacity | libiam/lualib-src/iam_core/ip_lock/ip_lock.c:229-430 | given a positive interval, the decision is right on every history reaching at least that far from the epoch if and only if the threshold is at most 100 |
| LockDecision.UserDecisionIsHistory | libiam/lualib-src/iam_core/uip/uip_user.c:1040-1048 | for thresholds up to 1024 the user decision over the stored records is that over the whole history |
| LockDecision.IpAndUserAgree | libiam/lualib-src/iam_core/uip/uip_user.c:1028-1049 | on equal histories whose latest failure is not earlier than the interval, the IP and the user decision agree for thresholds up to 100 |
| LockDecision.BeyondCapacityNeverLocks | libiam/lualib-src/iam_core/ip_lock/ip_lock.c:405-430 | a threshold above the buffer's size never locks |
| LockRun.LockExpiresOnTime | libiam/lualib-src/iam_core/ip_lock/ip_lock.c:229-335 | a lock whose latest failure is L holds at exactly the times up to L + unlock time, however many checked attempts arrive meanwhile |
| LockRun.RelockNeedsThreshold | libiam/lualib-src/iam_core/ip_lock/ip_lock.c:229-335 | after the expiry a lock engages again only through `threshold` newly recorded failures if the interval is at most the lock plus one second |
| LockRun.LockSpansRun | libiam/lualib-src/iam_core/ip_lock/ip_lock.c:229-335 | one lock and any run of attempts in order of time, before and after its expiry: none is recorded up to the expiry, the lock holds at exactly the times up to it while none is recorded, and under that interval condition later only after `threshold` are |
| LockRun.LongIntervalRelocksEarly | libiam/lualib-src/iam_core/ip_lock/ip_lock.c:405-430 | for every longer interval there is a lock that engages again after one failure |
| LockRun.RunRefinesHistory | libiam/lualib-src/iam_core/ip_lock/ip_lock.c:254-335 | over every run of checked increments at nondecreasing times not earlier than the interval, with a threshold up to 100, the buffer refines the unbounded history and both decide alike at every moment |
| IpLockMixed.MixedRunRefinesHistory | libiam/lualib-src/iam_core/ip_lock/ip_lock.c:254-335 | the same over every run that mixes increments with and without the test for a lock |
| IpAddress.StripTwice | libiam/lualib-src/iam_core/ip_lock/ip_lock.c:173-226 | stripping a port is idempotent exactly on texts whose result has no leading bracket and no single colon |
| IpAddress.PortsShareRecord | libiam/lualib-src/iam_core/ip_lock/ip_lock.c:173-226 | every port of an IPv4 or bracketed IPv6 address, and the bare address, name one record |
| IpAddress.BracketedName | libiam/lualib-src/iam_core/ip_lock/ip_lock.c:181-204 | the text in front of the first closing bracket is the name unless something else than a port follows or it is longer than 63 bytes; an open bracket has no name |
| IpAddress.UnbracketedName | libiam/lualib-src/iam_core/ip_lock/ip_lock.c:205-226 | without a bracket in front the text before the only colon, or the whole text without one, is the name if it is shorter than 64 bytes |
| IpAddress.ManyColonsName | libiam/lualib-src/iam_core/ip_lock/ip_lock.c:205-226 | with two colons or more nothing is cut off |
| IpLock.IpFailTable.Track | libiam/lualib-src/iam_core/ip_lock/ip_lock.c:152-171 | a new address enters the table exactly while fewer than 1000 are tracked |
| IpLock.IpFailTable.GetOneLockStatus | libiam/lualib-src/iam_core/ip_lock/ip_lock.c:367-441 | the status of the stripped address, whose record file comes into being |
| IpLock.IpFailTable.CheckIfLocked | libiam/lualib-src/iam_core/ip_lock/ip_lock.c:229-250 | locked exactly if settings, name and file are available and the stored failures lock; every failure on the way means not locked |
| IpLock.IpFailTable.IncreaseFailRecord | libiam/lualib-src/iam_core/ip_lock/ip_lock.c:254-335 | the whole new state and result of an increase, with the check of a lock in place |
| IpLock.IpFailTable.CleanFailRecord | libiam/lualib-src/iam_core/ip_lock/ip_lock.c:338-365 | removes the address's file and table entry and nothing else |
| IpLock.IpFailTable.CleanAllFailRecord | libiam/lualib-src/iam_core/ip_lock/ip_lock.c:489-510 | the loop over the directory removes what each file name reads as, in whatever order |
| IpLock.RunIsGood | libiam/lualib-src/iam_core/ip_lock/ip_lock.c:152-365 | over every run of increase, clean, clean-all and status calls, on any texts: at most 1000 addresses are tracked, every address with a nonempty record is tracked, and no record exceeds 100 failures |
| IpLock.CleanAllLeavesUnstable | libiam/lualib-src/iam_core/ip_lock/ip_lock.c:489-510 | over every run, on any texts: cleaning everything removes exactly the records whose name has no leading bracket and no single colon, and changes no other |
| IpLock.CleanAllUntracks | libiam/lualib-src/iam_core/ip_lock/ip_lock.c:489-510 | over every run an address with a record leaves the table exactly if its name is stable |
| IpLock.AcceptableRunIsCleaned | libiam/lualib-src/iam_core/ip_lock/ip_lock.c:489-510 | after runs on IPv4[:port], bare IPv6 and bracketed IPv6[:port] texts, and all others with a stable name, cleaning everything leaves no file |
| IpLock.AcceptableRunIsUntracked | libiam/lualib-src/iam_core/ip_lock/ip_lock.c:489-510 | and exactly the addresses without a record stay in the table |
| IpLock.CleanForgets | libiam/lualib-src/iam_core/ip_lock/ip_lock.c:338-365 | cleaning one address removes its record and its entry in the table and concerns no other |
| IpLock.StatusRecordsNothing | libiam/lualib-src/iam_core/ip_lock/ip_lock.c:367-441 | asking for the status stores no failure and tracks nobody |
| IpLock.OthersUntouched | libiam/lualib-src/iam_core/ip_lock/ip_lock.c:254-365 | calls for one address, whatever its text, leave every other address's record and entry alone |
| IpLock.IncreaseIsAttempt | libiam/lualib-src/iam_core/ip_lock/ip_lock.c:254-335 | a checked increase acts on the stored times as one attempt of the run in `LockRun` |
| IpLockMixed.IncreaseStoresUnlessLocked | libiam/lualib-src/iam_core/ip_lock/ip_lock.c:254-335 | for every state with room for the address or tracking it and a file that opens: the failure is recorded unless the test was asked for and finds a lock, and the answer is OK |
| IpLockMixed.UncheckedIsPush | libiam/lualib-src/iam_core/ip_lock/ip_lock.c:270-308 | without the test the stored times become those of one more recorded failure |
| IpLockMixed.IncreaseFailsExactly | libiam/lualib-src/iam_core/ip_lock/ip_lock.c:254-284 | a text without a name and a full table fail and change nothing; a file that does not open fails and changes no record |
| IpLock.UnacceptableTextSurvives | libiam/lualib-src/iam_core/ip_lock/ip_lock.c:489-510 | every text outside that class that names a file leaves a record which cleaning everything keeps |
| IpLock.BracketedColonIsUnacceptable | libiam/lualib-src/iam_core/ip_lock/ip_lock.c:181-204 | "[a:b]" is such a text |
| IpLock.RecordIsLockRun | libiam/lualib-src/iam_core/ip_lock/ip_lock.c:254-365 | over every run, with anything happening to other addresses, the stored times of an address are those of the run in `LockRun` over its increases since it was last cleaned |
| IpLockMixed.RecordIsMixedRun | libiam/lualib-src/iam_core/ip_lock/ip_lock.c:254-365 | the same over every run that mixes increases with and without the test |
| IpLockMixed.UncheckedRunIsWindow | libiam/lualib-src/iam_core/ip_lock/ip_lock.c:254-365 | over every run in which the address is only increased without the test, at nondecreasing times, the last min(n, 100) of those increases since it was last cleaned are stored |
| IpLock.TableDecidesLikeHistory | libiam/lualib-src/iam_core/ip_lock/ip_lock.c:229-365 | so the table's lock decision is that over the unbounded history of those increases |
| IpLockMixed.UncheckedTableDecidesLikeHistory | libiam/lualib-src/iam_core/ip_lock/ip_lock.c:229-365 | after such a run the decision is that over the history of all those increases, for every threshold as narrowed |
| IpLockMixed.MixedTableDecidesLikeHistory | libiam/lualib-src/iam_core/ip_lock/ip_lock.c:229-365 | and after a mixed run that over the unbounded history in which an increase counts unless it tested for a lock and met one |
| IpLock.TableLockSpansRun | libiam/lualib-src/iam_core/ip_lock/ip_lock.c:229-365 | and a lock of the table expires and engages again as `LockSpansRun` says, over every run that does not clean the address |
| LdapSlots.UserFile.AllocUid | libiam/lualib-src/iam_core/uip/uip_user.c:584-646 | the scan and the write: the new file and the id handed out |
| LdapSlots.UserFile.ReadUser | libiam/lualib-src/iam_core/uip/uip_user.c:651-684 | reads the record at the id's place, or fails |
| LdapSlots.UserFile.RenewUser | libiam/lualib-src/iam_core/uip/uip_user.c:687-717 | writes the record at the id's place, padding a file that is too short |
| LdapSlots.AllocIsLeastFree | libiam/lualib-src/iam_core/uip/uip_user.c:584-646 | hands out 1000 plus the least free index and takes it, or fails exactly when the first 32 are taken |
| LdapSlots.RenewSetsOneId | libiam/lualib-src/iam_core/uip/uip_user.c:687-717 | takes or frees exactly the id it names |
| LdapSlots.ReadAfterRenew | libiam/lualib-src/iam_core/uip/uip_user.c:651-717 | reading after renewing returns what was written; other readable records are unchanged |
| LdapSlots.AppendedSlotCopiesPredecessor | libiam/lualib-src/iam_core/uip/uip_user.c:584-646 | a slot added behind the last user carries that user's data under the new id |
| LdapSlots.ReusedSlotKeepsData | libiam/lualib-src/iam_core/uip/uip_user.c:584-646 | a free slot inside the file is handed out with the data left in it, marked used under its id |
| LdapSlots.FirstSlotIsZero | libiam/lualib-src/iam_core/uip/uip_user.c:584-646 | the first slot of a new or empty file starts from zero bytes under id 1000 |
| LdapSlots.AllocKeepsOthers | libiam/lualib-src/iam_core/uip/uip_user.c:584-646 | allocation changes no other record |
| LdapSlots.AccessExactly | libiam/lualib-src/iam_core/uip/uip_user.c:651-717 | which ids can be read and renewed, and that a refused renewal changes nothing |
| LdapSlots.RunKeepsPlaces | libiam/lualib-src/iam_core/uip/uip_user.c:584-717 | over every run of alloc and renew a used slot i carries id 1000 + i, live ids are distinct, and with renewals below 1032 there are at most 32 slots |
| FilterEscape.EscapeString | libiam/lualib-src/iam_core/ldap_auth.c:19-58 | writes the escaped name and its terminator within the buffer, and succeeds exactly when the name without its last byte leaves three free bytes |
| FilterEscape.UnescapeEscape | libiam/lualib-src/iam_core/ldap_auth.c:19-58 | the hex unescaping of RFC 4515, section 3, gives back every name |
| FilterEscape.NothingBare | libiam/lualib-src/iam_core/ldap_auth.c:19-58 | no '(', ')' or '*' is left in an escaped name |
| FilterEscape.ShortNamesFit | libiam/lualib-src/iam_core/ldap_auth.c:19-58 | escaping succeeds whenever the escaped length is at most the buffer size minus three |
| FilterEscape.FitsExactly | libiam/lualib-src/iam_core/ldap_auth.c:19-58 | a name fits exactly if all but its last byte, escaped, leave four bytes of the buffer |
| DnEscape.SpecialCharEscape | libiam/lualib-src/iam_core/ldap_auth_parse_info.c:262-295 | editing the growing buffer in place terminates, never loses a character it reached, equals the left-to-right escape of the original text whenever that fits, and otherwise fills the buffer and agrees with the escape on all but its last three bytes |
| DnEscape.CheckSpecialChar | libiam/lualib-src/iam_core/ldap_auth_parse_info.c:221-257 | '=' and ',' are left alone exactly next to a recognised tag |
| DnEscape.DropEscape | libiam/lualib-src/iam_core/ldap_auth_parse_info.c:262-295 | dropping each escaping backslash restores the text |
| DnEscape.ContextPreserved | libiam/lualib-src/iam_core/ldap_auth_parse_info.c:262-295 | the test made in the half-edited buffer gives the answer it would give in the original text |
| DnEscape.EscapeIsWellEscaped | libiam/lualib-src/iam_core/ldap_auth_parse_info.c:221-295 | in the result every backslash escapes a special character and a bare special one stands next to a recognised tag |
| DnEscape.CommaBeforeTag | libiam/lualib-src/iam_core/ldap_auth_parse_info.c:221-257 | a comma stays bare exactly in front of CN=, OU= or DC= in either case; in front of UID= it is escaped although the '=' is not |
| DnEscape.EqualsAfterTag | libiam/lualib-src/iam_core/ldap_auth_parse_info.c:221-257 | an '=' stays bare exactly behind CN, OU, DC or UID in either case |
| DnEscape.OthersEscaped | libiam/lualib-src/iam_core/ldap_auth_parse_info.c:262-295 | of all other characters exactly \ " ; < > # + are escaped, wherever they stand |
| GroupDn.StrTok | libiam/lualib-src/iam_core/ldap_auth_parse_info.c:67-105 | one cut takes the first token and leaves the text that holds the others |
| GroupDn.AppendPath | libiam/lualib-src/iam_core/ldap_auth_parse_info.c:67-105 | the folder's segments are appended innermost first as OU parts |
| GroupDn.ParseGroupInfo | libiam/lualib-src/iam_core/ldap_auth_parse_info.c:110-175 | the buffer holds the ideal DN as far as it goes: 1020 bytes of it, 1019 when the domain has labels |
| GroupDn.DnReads | libiam/lualib-src/iam_core/ldap_auth_parse_info.c:110-175 | the ideal DN character by character: CN=name, a folder that starts with OU= or CN= as it is and any other from its innermost segment out behind OU=, the labels behind DC=, and the lower-case tags on request |
| GroupDn.TokensSplit | libiam/lualib-src/iam_core/ldap_auth_parse_info.c:67-105 | segments and labels are the nonempty pieces between the delimiters |
| GroupDn.GroupDnRecovers | libiam/lualib-src/iam_core/ldap_auth_parse_info.c:110-175 | from comma-free inputs the DN determines the name, the folder path and the domain labels |
| Ipv6Text.ToValue | libiam/lualib/utils.lua:396-403 | the value of the hex digits |
| Ipv6Text.FormatIpv6Addr | libiam/lualib/utils.lua:376-385 | 32 digits cut into eight groups joined by colons |
| Ipv6Text.DeleteZeroAddr | libiam/lualib/utils.lua:337-374 | from the full form of any address the loop and the trimming produce the form with its first zero run as "::" |
| Ipv6Text.FirstRunIsShortened | libiam/lualib/utils.lua:337-374 | the run shortened is the first one, and it is shortened whole |
| Hex.DigitsInOrder | libiam/lualib/utils.lua:387-403 | hex digits of either case have their value, and printing uses lower case |
| Ipv6Text.SimplifyIpmiIpv6Req | libiam/lualib/utils.lua:329-335 | the short form for every sixteen bytes |
| Ipv6Normalize.ShortTextReadsBack | libiam/lualib/utils.lua:329-374 | the short text has at most one "::" and reads back to the same eight groups by RFC 4291, section 2.2 |
| Ipv6Normalize.NormalizeIpv6 | libiam/lualib/utils.lua:433-460 | expanding, collecting hex runs, filling up and padding, on every text |
| Ipv6Normalize.NormalizeText | libiam/lualib/utils.lua:433-460 | normalising every text of an address in the sense of RFC 4291, section 2.2, in either case and with leading zeros, gives its full form, except that behind a "::" in front every group moves one place to the left |
| Ipv6Normalize.FullTextReadsBack | libiam/lualib/utils.lua:433-460 | the full form names its address in 39 characters |
| Ipv6Normalize.NormalizeShort | libiam/lualib/utils.lua:329-469 | shortening and then normalising gives the full form of the address if and only if its first group is nonzero or it is all zero |
| Ipv6Normalize.NormalizeAgrees | libiam/lualib/utils.lua:433-469 | normalising a text gives the full form of the address it names if and only if the text does not start with "::" or the address is all zero |
| Subnet.IsIpv6InSubnet | libiam/lualib-src/iam_core/common/common.c:171-218 | the byte loop and the shift test hold exactly when the mask length is in 1..128 and that many leading bits agree |
| Subnet.IsIpInSubnet | libiam/lualib-src/iam_core/common/common.c:134-166 | the mask test on the words as loaded from memory holds exactly when the mask length is in 1..32 and that many leading bits agree |
| Subnet.MaskedWordsAgree | libiam/lualib-src/iam_core/common/common.c:161-163 | masking both loaded words with the byte-swapped mask compares the leading bits of the address bytes |
| Subnet.LongerMaskIsFiner | libiam/lualib-src/iam_core/common/common.c:134-218 | a match under a longer mask is one under every shorter mask, a full mask means equality, and for a fixed mask matching is an equivalence |
| LoginRule.YmdhmIsCalendar | libiam/lualib-src/iam_core/common/check_login_rule.c:242-306 | a full time rule admits exactly the moments of the calendar interval |
| LoginRule.HmIsClock | libiam/lualib-src/iam_core/common/check_login_rule.c:269-343 | a clock rule admits exactly the minutes of the interval |
| LoginRule.YmdIsFolded | libiam/lualib-src/iam_core/common/check_login_rule.c:256-326 | a date rule compares dates whose years are folded to their low byte |
| LoginRule.YmdIsCalendarInOneBlock | libiam/lualib-src/iam_core/common/check_login_rule.c:256-326 | date rules mean the calendar interval over a range of years if and only if the range lies in one block of 256 years |
| LoginRule.TimeRuleIsCalendar | libiam/lualib-src/iam_core/common/check_login_rule.c:350-433 | for every text a rule can hold, the length selects the reading: the calendar interval, the interval of dates with years folded to a byte, or the clock interval; any other text refuses |
| LoginRule.CheckRules | libiam/lualib-src/iam_core/common/check_login_rule.c:696-743 | OK exactly when no selected rule is enabled or some selected enabled rule passes its time, address and MAC checks |
| LoginRule.CheckUserLoginRule | libiam/lualib-src/iam_core/common/check_login_rule.c:751-780 | exactly the serial console, FTP, users without rules and the emergency user skip the rules; without the rule file nobody else gets in |
| LoginRule.CheckSnmpLoginRule | libiam/lualib-src/iam_core/common/check_login_rule.c:785-795 | the same combination with the rule set narrowed to a byte and no exemption |
| LoginRule.RulesDecide | libiam/lualib-src/iam_core/common/check_login_rule.c:696-743 | bit by bit and rule by rule: admitted exactly if none of the rules of the bits set is enabled or one of them admits the calendar time, the address and the hardware address |
| LoginRule.ExemptExactly | libiam/lualib-src/iam_core/common/check_login_rule.c:751-780 | exempt are terminals starting with /dev/ttyS0 or ftp, rule set 0 and the excluded user 1, and nobody else |
| LoginRule.OtherRulesDoNotMatter | libiam/lualib-src/iam_core/common/check_login_rule.c:696-743 | a rule that is off or not selected has no influence on the decision |
| UserFile.ParseLineTokenToUint8 | libiam/lualib-src/iam_core/common/common.c:35-45 | fails exactly without digits and otherwise stores the low byte of the saturated number |
| UserFileText.NumberReads | libiam/lualib-src/iam_core/common/common.c:35-45 | white space, a sign and a decimal number read as its value, saturated to 64 bits, whatever follows |
| UserFileText.NoNumber | libiam/lualib-src/iam_core/common/common.c:35-45 | without a digit there is no number |
| UserFileText.NarrowedModulo | libiam/lualib-src/iam_core/common/common.c:35-45 | narrowing keeps a number up to a multiple of the width |
| UserFile.PamParseLine | libiam/lualib-src/iam_core/pam_bmc_login/pam_bmc_login.c:109-183 | accepts a line exactly if its fields are in order, and fills the structure up to the first that is not |
| UserFile.UipParseLine | libiam/lualib-src/iam_core/uip/uip_user.c:56-115 | accepts the same lines and fills the same structure, with an answer that tells the bad field's kind |
| UserFileText.AcceptedExactly | libiam/lualib-src/iam_core/uip/uip_user.c:56-115 | accepted exactly if columns 1, 7, 12 and 14 to 19, as far as there are any, start with numbers and the second has at most 16 characters |
| UserFileText.FirstBadColumn | libiam/lualib-src/iam_core/uip/uip_user.c:29-115 | the reader by name answers 7 for a name too long and -1 for a column without a number |
| UserFile.PamGetUser | libiam/lualib-src/iam_core/pam_bmc_login/pam_bmc_login.c:193-237 | the loop over the lines up to the first empty one parses the line found by id, and fails if there is none |
| UserFile.UipGetUser | libiam/lualib-src/iam_core/uip/uip_user.c:122-164 | on every text the loop parses the first line whose second field is the name, or meets a line without a second field first and hands strcmp a null pointer |
| UserFileText.AllLines | libiam/lualib-src/iam_core/uip/uip_user.c:122-164 | both readers look at every line of a file of nonempty lines |
| UserFileText.LinesBeforeEmpty | libiam/lualib-src/iam_core/uip/uip_user.c:122-164 | and at none behind the first empty one |
| UserFileText.StopsAtFirst | libiam/lualib-src/iam_core/uip/uip_user.c:122-164 | the reader by name stops at the first line that has the name in its second field or no second field |
| UserFileText.StopsNowhere | libiam/lualib-src/iam_core/uip/uip_user.c:122-164 | and answers that there is no such user exactly where no line is of that kind |
| UserFile.FillIsRecord | libiam/lualib-src/iam_core/uip/uip_user.c:56-115 | the structure filled field by field holds in every number the value of its own column and zero for missing columns |
| UserFile.FirstWithId | libiam/lualib-src/iam_core/pam_bmc_login/pam_bmc_login.c:193-237 | for a nonzero id the reader stops at the first line that carries it, and finds none exactly if no line does |
| UserFileText.FirstWithZero | libiam/lualib-src/iam_core/pam_bmc_login/pam_bmc_login.c:193-237 | for the id zero a line is found exactly if one carries it and no number up to it was out of range |
| UserFile.BothReadersFindTheLine | libiam/lualib-src/iam_core/uip/uip_user.c:122-164 | on a file with unique ids and names and at least two fields a line, a line's id and its name lead both readers to that line |
| UserFile.RecordsAgreeAfterNameCheck | libiam/lualib-src/iam_core/pam_bmc_login/pam_bmc_login.c:193-303 | when the reader by id accepts and the name comparison behind it passes, the reader by name reads the same line, unique ids or not |

## Left out

- LDAP connection, bind, SASL, TLS, options and the search filters and scope: the bind result and the answers are parameters, and one login sees one fixed directory.
- The clock-dependent parts of D-Bus, file opening, locking, ownership and permissions: settings, times and whether files open are parameters; a record file is the sequence of its records, and errors in its format are not modelled.
- Allocation failures, releasing memory, null parameters other than in the DN comparison, logging, and `errno` left over from earlier calls.
- `parse_ldap_base_info`, `get_ldap_scope` and the host part of the configuration: single formatted copies.
- `increment_pam_tally` and `reset_pam_tally` around `update_tally`, and `get_all_lock_status` around the status of one address: file handling.
- GroupDn.StrTok: cuts values instead of writing terminators into the copied input.
- IpLock.IpFailTable.IncreaseFailRecord: one clock value and one answer whether the file opens serve both the check and the store, where the code asks twice.
- IpLock.IpFailTable.CleanFailRecord: the code appends any text to the directory path, so a name with '/' means a file elsewhere; here such a name opens nothing and removes nothing. The same holds for the other calls of the table.
- LdapConfig.ReadGroupDn: of an escaped folder that outgrows its 255 bytes the last three bytes are not described.
- UserDn.OwnDn: the user's entry is named by one attribute, and special characters are written with a backslash in front; RFC 4514 also allows several attributes, two hex digits, and more escapes than needed.
- Subnet.IsIpInSubnet: at mask length 1 the source subtracts one from `1 << 31` in a signed int, which C leaves undefined; here it wraps.
- Ipv6Normalize.NormalizeIpv6: a run of hex digits keeps its value however long it is, where Lua numbers do not; texts with an embedded dotted IPv4 address are outside `NormalizeText`.
- FailureBuffer.UpdateRecord: the unused tail of the 100 slots is not described.
- UserFile.UipParseLine: copies a name together with its terminator, where the code relies on a zeroed structure for it.
- UserFile.PamGetUser: a number out of range is remembered as the only cause of a set `errno`.
- IPv4 normalisation in `utils.lua`, the dispatch in front of it, and `network.c`, whose subnet tests repeat those of `common.c`.
- `inet_pton`, `sscanf_s` and the parsing of the rule file: parsed addresses, masks, time rules and rule lines are inputs.
- The MAC lookup through ARP and the sanity tests on rule addresses: parts of the answer whether a rule admits the address.
- The password checks, OpenSSL and hashing code, the Lua bindings and the generated code.
