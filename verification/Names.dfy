/**
  The strings that the chat server composes out of names, and takes apart again:
  src/Server/Redis/RedisKeys.h, the member entries and group entries of RedisClient.cc and
  connection.cc, and the client's `trim` and `split_dash` (src/Client/UserChat/chat_tools.cc).
*/
module Names {
  import opened Prelude

  predicate NoChar(s: string, c: char) {
    forall i | 0 <= i < |s| :: s[i] != c
  }

  /** `find`: the position of the first c, or the length of the string. */
  function FirstOf(s: string, c: char): (p: nat)
    ensures p <= |s| && NoChar(s[..p], c)
    ensures p < |s| ==> s[p] == c
  {
    if |s| == 0 || s[0] == c then 0
    else
      var p := FirstOf(s[1..], c);
      assert s[..1 + p] == [s[0]] + s[1..][..p];
      1 + p
  }

  lemma PrefixNoChar(s: string, p: nat, c: char)
    requires p <= |s| && NoChar(s[..p], c)
    ensures forall k | 0 <= k < p :: s[k] != c
  {
    forall k | 0 <= k < p ensures s[k] != c { assert s[k] == s[..p][k]; }
  }

  /** `find` stops at the first separator, or at the end. */
  lemma FirstOfIs(a: string, c: char, b: string)
    requires NoChar(a, c)
    ensures FirstOf(a + [c] + b, c) == |a| && FirstOf(a, c) == |a|
  {
    hide FirstOf;
    var s := a + [c] + b;
    assert s[|a|] == c && forall k | 0 <= k < |a| :: s[k] == a[k];
    PrefixNoChar(s, FirstOf(s, c), c);
  }

  /** `rfind`: the position of the last c, or none. */
  function LastOf(s: string, c: char): (p: Option<nat>)
    ensures p.Some? ==> p.value < |s| && s[p.value] == c && NoChar(s[p.value + 1..], c)
    ensures p.None? ==> NoChar(s, c)
  {
    if |s| == 0 then None
    else if s[|s| - 1] == c then Some(|s| - 1)
    else
      var p := LastOf(s[..|s| - 1], c);
      assert p.Some? ==> s[p.value + 1..] == s[..|s| - 1][p.value + 1..] + [s[|s| - 1]];
      p
  }

  lemma SuffixNoChar(s: string, k: nat, c: char)
    requires k <= |s| && NoChar(s[k..], c)
    ensures forall i | k <= i < |s| :: s[i] != c
  {
    forall i | k <= i < |s| ensures s[i] != c { assert s[i] == s[k..][i - k]; }
  }

  lemma LastPosition(s: string, i: nat, p: Option<nat>, c: char)
    requires i < |s| && s[i] == c && forall k | i < k < |s| :: s[k] != c
    requires if p.None? then NoChar(s, c) else p.value < |s| && s[p.value] == c && NoChar(s[p.value + 1..], c)
    ensures p == Some(i)
  {
    if p.Some? { SuffixNoChar(s, p.value + 1, c); }
  }

  lemma LastOfIs(a: string, c: char, b: string)
    requires NoChar(b, c)
    ensures LastOf(a + [c] + b, c) == Some(|a|)
  {
    hide LastOf;
    var s := a + [c] + b;
    assert s[|a|] == c && s[|a| + 1..] == b;
    SuffixNoChar(s, |a| + 1, c);
    LastPosition(s, |a|, LastOf(s, c), c);
  }

  /** Cutting at the first separator is unambiguous when the left part does not contain it. */
  lemma FirstCutUnique(a: string, b: string, x: string, y: string, c: char)
    requires NoChar(a, c) && NoChar(x, c) && a + [c] + b == x + [c] + y
    ensures a == x && b == y
  {
    var s := a + [c] + b;
    assert s[|a|] == c && s[|x|] == c;
    assert (forall i | 0 <= i < |a| :: s[i] == a[i]) && (forall i | 0 <= i < |x| :: s[i] == x[i]);
    assert s[..|a|] == a && s[|a| + 1..] == b;
    assert s[..|x|] == x && s[|x| + 1..] == y;
  }

  // ---------- roles and member entries ----------

  const OWNER := "群主"
  const MANAGER := "管理员"
  const MEMBER := "成员"

  predicate IsRole(r: string) {
    r == OWNER || r == MANAGER || r == MEMBER
  }

  lemma RolesHaveNoColon(r: string)
    requires IsRole(r)
    ensures NoChar(r, ':')
  {
  }

  /** An element of a group's member set. */
  function MemberEntry(user: string, role: string): string {
    user + ":" + role
  }

  /** The part before the last colon, or everything. */
  function EntryUser(e: string): string {
    var p := LastOf(e, ':');
    if p.Some? then e[..p.value] else e
  }

  /** The part after the last colon; without one, `npos + 1` is 0 and the whole string is taken. */
  function EntryRole(e: string): string {
    var p := LastOf(e, ':');
    if p.Some? then e[p.value + 1..] else e
  }

  /** `rfind(':')` undoes the composition for every user name, even one that contains colons. */
  lemma EntryRoundTrip(user: string, role: string)
    requires NoChar(role, ':')
    ensures EntryUser(MemberEntry(user, role)) == user && EntryRole(MemberEntry(user, role)) == role
  {
    LastOfIs(user, ':', role);
    assert MemberEntry(user, role)[..|user|] == user && MemberEntry(user, role)[|user| + 1..] == role;
  }

  /** The user's name, a colon, and the role. */
  lemma EntryText(user: string, role: string)
    ensures var e := MemberEntry(user, role);
            |e| == |user| + 1 + |role| && e[..|user|] == user && e[|user|] == ':' && e[|user| + 1..] == role
  {
  }

  /** Taking an entry apart puts it together again; a string without a colon is its own user and role. */
  lemma EntryCut(e: string)
    ensures if NoChar(e, ':') then EntryUser(e) == e && EntryRole(e) == e
            else EntryUser(e) + ":" + EntryRole(e) == e && NoChar(EntryRole(e), ':')
  {
    hide LastOf;
    var p := LastOf(e, ':');
    if p.Some? { assert e == e[..p.value] + ":" + e[p.value + 1..]; }
  }

  /** Any composed entry, whatever its second part, is the entry of some user and a role without a colon. */
  lemma EntryParts(user: string, statue: string)
    ensures var e := MemberEntry(user, statue);
            MemberEntry(EntryUser(e), EntryRole(e)) == e && NoChar(EntryRole(e), ':')
  {
    var e := MemberEntry(user, statue);
    hide LastOf;
    assert e[|user|] == ':';
    var p := LastOf(e, ':').value;
    assert e == e[..p] + ":" + e[p + 1..];
  }

  // ---------- keys ----------

  datatype GroupId = GroupId(owner: string, name: string)

  /** An owner name that composes unambiguously with any group name in an index key. */
  predicate NameOk(owner: string) {
    NoChar(owner, ':')
  }

  /** `GroupOwner(owner) + ":" + name` */
  function IndexKey(id: GroupId): string {
    "group_owner:" + id.owner + ":" + id.name
  }

  lemma IndexKeyText(id: GroupId)
    ensures var k, n := IndexKey(id), |id.owner|;
            |k| == 12 + n + 1 + |id.name| && k[..12] == "group_owner:"
            && k[12..12 + n] == id.owner && k[12 + n] == ':' && k[13 + n..] == id.name
  {
  }

  lemma IndexKeyInjective(x: GroupId, y: GroupId)
    requires NoChar(x.owner, ':') && NoChar(y.owner, ':') && IndexKey(x) == IndexKey(y)
    ensures x == y
  {
    assert IndexKey(x)[|"group_owner:"|..] == x.owner + [':'] + x.name;
    assert IndexKey(y)[|"group_owner:"|..] == y.owner + [':'] + y.name;
    FirstCutUnique(x.owner, x.name, y.owner, y.name, ':');
  }

  /** An owner's name with a colon makes the key that of another group, too. */
  lemma ColonClashes(x: GroupId, p: nat) returns (y: GroupId)
    requires p < |x.owner| && x.owner[p] == ':'
    ensures y != x && IndexKey(y) == IndexKey(x)
  {
    y := GroupId(x.owner[..p], x.owner[p + 1..] + ":" + x.name);
    assert x.owner == x.owner[..p] + ":" + x.owner[p + 1..];
    assert |y.owner| < |x.owner|;
  }

  const DASHES := "   ---"

  /** An element of a user's group list. */
  function GroupEntry(name: string, owner: string): string {
    name + DASHES + owner
  }

  lemma GroupEntryText(name: string, owner: string)
    ensures var e, n := GroupEntry(name, owner), |name|;
            |e| == n + 6 + |owner| && e[..n] == name && e[n..n + 6] == "   ---" && e[n + 6..] == owner
  {
  }

  /** The separator stands at this position of a name. */
  predicate SeparatorAt(s: string, p: nat) {
    p + 6 <= |s| && s[p] == s[p + 1] == s[p + 2] == ' ' && s[p + 3] == s[p + 4] == s[p + 5] == '-'
  }

  predicate NoSeparator(s: string) {
    forall p: nat | p <= |s| :: !SeparatorAt(s, p)
  }

  lemma SeparatorBehind(a: string, b: string, p: nat)
    requires SeparatorAt(a + b, |a| + p)
    ensures SeparatorAt(b, p)
  {
    assert forall k | 0 <= k < |b| :: b[k] == (a + b)[|a| + k];
  }

  lemma EntryNotLonger(x: GroupId, y: GroupId)
    requires NoSeparator(x.owner) && GroupEntry(x.name, x.owner) == GroupEntry(y.name, y.owner)
    ensures |y.name| <= |x.name|
  {
    var e, n, m := GroupEntry(x.name, x.owner), |x.name|, |y.name|;
    assert e == GroupEntry(y.name, y.owner);
    assert e[n + 3] == '-' && e[n + 4] == '-' && e[n + 5] == '-';
    assert SeparatorAt(e, m);
    if m >= n + 6 { SeparatorBehind(x.name + DASHES, x.owner, m - n - 6); }
  }

  /** Groups whose owners' names do not contain the separator have different entries. */
  lemma GroupEntryInjective(x: GroupId, y: GroupId)
    requires NoSeparator(x.owner) && NoSeparator(y.owner)
    requires GroupEntry(x.name, x.owner) == GroupEntry(y.name, y.owner)
    ensures x == y
  {
    EntryNotLonger(x, y);
    EntryNotLonger(y, x);
    var e, n := GroupEntry(x.name, x.owner), |x.name|;
    assert e == GroupEntry(y.name, y.owner);
    assert e[..n] == x.name && e[n + 6..] == x.owner;
    assert e[..n] == y.name && e[n + 6..] == y.owner;
  }

  /** An owner's name that contains it makes the entry that of another group, too. */
  lemma SeparatorClashes(x: GroupId, p: nat) returns (y: GroupId)
    requires SeparatorAt(x.owner, p)
    ensures y != x && GroupEntry(y.name, y.owner) == GroupEntry(x.name, x.owner)
  {
    y := GroupId(x.owner[p + 6..], x.name + DASHES + x.owner[..p]);
    assert x.owner == x.owner[..p] + DASHES + x.owner[p + 6..];
    assert |y.owner| < |x.owner|;
  }

  // ---------- the client takes a group entry apart ----------

  predicate Blank(c: char) {
    c == ' ' || c == '\t'
  }

  /** Without its blanks at both ends. */
  function Trim(s: string): (t: string)
    decreases |s|
  {
    if |s| == 0 then ""
    else if Blank(s[0]) then Trim(s[1..])
    else if Blank(s[|s| - 1]) then Trim(s[..|s| - 1])
    else s
  }

  predicate Trimmed(s: string) {
    |s| > 0 ==> !Blank(s[0]) && !Blank(s[|s| - 1])
  }

  lemma {:induction false} TrimIsTrimmed(s: string)
    ensures Trimmed(Trim(s)) && |Trim(s)| <= |s|
    ensures Trim(s) == s <==> Trimmed(s)
    decreases |s|
  {
    if |s| > 0 {
      if Blank(s[0]) { TrimIsTrimmed(s[1..]); }
      else if Blank(s[|s| - 1]) { TrimIsTrimmed(s[..|s| - 1]); }
    }
  }

  predicate AllBlank(s: string) {
    forall i | 0 <= i < |s| :: Blank(s[i])
  }

  /** Nothing but blanks is cut off. */
  lemma {:induction false} TrimCuts(s: string) returns (a: string, b: string)
    ensures s == a + Trim(s) + b && AllBlank(a) && AllBlank(b)
    decreases |s|
  {
    a, b := "", "";
    if |s| > 0 && Blank(s[0]) {
      var rest := s[1..];
      a, b := TrimCuts(rest);
      hide AllBlank;
      BlankAdded(s[0], a);
      assert s == [s[0]] + rest && [s[0]] + (a + Trim(rest) + b) == [s[0]] + a + Trim(rest) + b;
      a := [s[0]] + a;
    } else if |s| > 0 && Blank(s[|s| - 1]) {
      var init := s[..|s| - 1];
      a, b := TrimCuts(init);
      hide AllBlank;
      BlankAdded(s[|s| - 1], b);
      assert s == init + [s[|s| - 1]] && a + Trim(init) + b + [s[|s| - 1]] == a + Trim(init) + (b + [s[|s| - 1]]);
      b := b + [s[|s| - 1]];
    } else {
      assert s == "" + Trim(s) + "";
    }
  }

  lemma BlankAdded(c: char, s: string)
    requires Blank(c) && AllBlank(s)
    ensures AllBlank([c] + s) && AllBlank(s + [c])
  {
  }

  predicate DashesAt(s: string, p: nat) {
    p + 3 <= |s| && s[p] == '-' && s[p + 1] == '-' && s[p + 2] == '-'
  }

  /** `find("---")` */
  function FindDashes(s: string): (p: Option<nat>)
    ensures p.Some? ==> DashesAt(s, p.value) && forall q: nat | q < p.value :: !DashesAt(s, q)
    ensures p.None? ==> forall q: nat :: !DashesAt(s, q)
    decreases |s|
  {
    if |s| < 3 then None
    else if DashesAt(s, 0) then Some(0)
    else
      var p := FindDashes(s[1..]);
      assert forall q: nat | q > 0 :: DashesAt(s, q) <==> DashesAt(s[1..], q - 1);
      if p.Some? then Some(p.value + 1) else None
  }

  function SplitDash(s: string): (string, string) {
    var p := FindDashes(s);
    if p.None? then (Trim(s), "") else (Trim(s[..p.value]), Trim(s[p.value + 3..]))
  }

  /** The two sides of the first three dashes, trimmed; without dashes the whole, trimmed, and nothing. */
  lemma SplitDashAt(x: string, y: string)
    ensures FindDashes(x + "--").None? ==> SplitDash(x + "---" + y) == (Trim(x), Trim(y))
    ensures FindDashes(x).None? ==> SplitDash(x) == (Trim(x), "")
  {
    var s := x + "---" + y;
    assert DashesAt(s, |x|);
    assert forall q: nat | q < |x| :: DashesAt(s, q) ==> DashesAt(x + "--", q);
    hide Trim, FindDashes;
    if FindDashes(x + "--").None? {
      assert FindDashes(s) == Some(|x|);
      assert s[..|x|] == x && s[|x| + 3..] == y;
    }
  }

  /** The client recovers a group's name and owner from its list entry exactly when both names are
      free of outer blanks and the group name does not contain "---". */
  lemma SplitDashUndoesEntry(name: string, owner: string)
    ensures SplitDash(GroupEntry(name, owner)) == (name, owner)
       <==> Trimmed(name) && Trimmed(owner) && FindDashes(name).None?
  {
    var s := GroupEntry(name, owner);
    var p := FindDashes(s);
    assert s[|name|] == s[|name| + 1] == s[|name| + 2] == ' ' && DashesAt(s, |name| + 3);
    assert forall q: nat | q < |name| + 3 :: DashesAt(s, q) <==> DashesAt(name, q);
    TrimIsTrimmed(owner);
    if FindDashes(name).None? {
      assert p == Some(|name| + 3);
      assert s[..|name| + 3] == name + "   " && s[|name| + 6..] == owner;
      TrimTail(name);
    } else {
      assert p.value + 3 <= |name|;
      TrimIsTrimmed(s[..p.value]);
    }
  }

  lemma TrimRight(s: string)
    requires |s| > 0 && !Blank(s[0])
    ensures Trim(s + " ") == Trim(s)
  {
    assert (s + " ")[..|s|] == s;
  }

  lemma TrimTail(name: string)
    ensures Trim(name + "   ") == name <==> Trimmed(name)
  {
    var s := name + "   ";
    TrimIsTrimmed(s);
    if Trimmed(name) {
      if |name| == 0 {
        assert s == "   " && s[1..] == "  " && s[1..][1..] == " " && s[1..][1..][1..] == "";
      } else {
        TrimRight(name);
        TrimRight(name + " ");
        TrimRight(name + "  ");
        assert name + " " + " " == name + "  " && name + "  " + " " == s;
      }
    }
  }
}
