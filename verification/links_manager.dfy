/**
 `LinksManager`: the saved list of Instagram profiles the user follows, each
 with a display nickname, and the parsing of a pasted profile link or handle
 into a username. The list is a value here; loading it from and saving it to
 the JSON file is outside the model.
 */
module LinksManager {
  import opened Options
  import opened Strings
  import opened Lists
  import opened PrioritySearch

  // ---------------------------------------------------------------------------
  // extract_username_from_link

  /** The literal that the two URL patterns search for (`instagram\.com/`). */
  const Host: string := "instagram.com/"

  /** The characters `[^/?]` excludes. */
  predicate IsSeparator(c: char) {
    c == '/' || c == '?'
  }

  /** Length of the greedy `[^/?]*` run of `s` starting at `k`. */
  function RunLength(s: string, k: nat): (n: nat)
    requires k <= |s|
    ensures k + n <= |s|
    ensures forall j :: k <= j < k + n ==> !IsSeparator(s[j])
    ensures k + n == |s| || IsSeparator(s[k + n])
    decreases |s| - k
  {
    if k < |s| && !IsSeparator(s[k]) then 1 + RunLength(s, k + 1) else 0
  }

  lemma {:induction false} RunLengthOf(s: string, k: nat, n: nat)
    requires k + n <= |s|
    requires forall j :: k <= j < k + n ==> !IsSeparator(s[j])
    requires k + n == |s| || IsSeparator(s[k + n])
    ensures RunLength(s, k) == n
    decreases n
  {
    if n > 0 {
      RunLengthOf(s, k + 1, n - 1);
    }
  }

  /**
   `instagram\.com/([^/?]+)` (or, when `needSlash`, `instagram\.com/([^/?]+)/`)
   matches at offset `i`. The group is greedy, so with the trailing slash it
   matches only when the whole run is followed by `/`.
   */
  predicate HostMatchAt(s: string, i: int, needSlash: bool) {
    && OccursAt(s, Host, i)
    && RunLength(s, i + |Host|) > 0
    && (needSlash ==> i + |Host| + RunLength(s, i + |Host|) < |s| && s[i + |Host| + RunLength(s, i + |Host|)] == '/')
  }

  /** Group 1 of the match at offset `i`. */
  function HostGroup(s: string, i: int): string
    requires OccursAt(s, Host, i)
  {
    s[i + |Host|..i + |Host| + RunLength(s, i + |Host|)]
  }

  /** `re.search` of a URL pattern from offset `i` on: the group of the leftmost match. */
  function HostSearchFrom(s: string, i: nat, needSlash: bool): (r: Option<string>)
    ensures r.Some? <==> exists j :: i <= j < |s| && HostMatchAt(s, j, needSlash)
    ensures r.Some? ==> exists j :: && i <= j < |s| && HostMatchAt(s, j, needSlash) && r.value == HostGroup(s, j)
                                    && forall j' :: i <= j' < j ==> !HostMatchAt(s, j', needSlash)
    decreases |s| - i
  {
    if i >= |s| then None
    else if HostMatchAt(s, i, needSlash) then Some(HostGroup(s, i))
    else HostSearchFrom(s, i + 1, needSlash)
  }

  /** The characters of `[a-zA-Z0-9._]`. */
  predicate IsHandleChar(c: char) {
    IsAsciiLetter(c) || IsDigit(c) || c == '.' || c == '_'
  }

  predicate IsHandle(s: string) {
    |s| > 0 && forall i :: 0 <= i < |s| ==> IsHandleChar(s[i])
  }

  /** The bare-username pattern: the whole string is a handle, where the end anchor also matches just before a final newline. */
  function BareMatch(s: string): (r: Option<string>)
    ensures r.Some? <==> IsHandle(s) || (|s| > 0 && s[|s| - 1] == '\n' && IsHandle(s[..|s| - 1]))
    ensures r.Some? ==> IsHandle(r.value) && (r.value == s || r.value + "\n" == s)
    ensures IsHandle(s) ==> r == Some(s)
  {
    if IsHandle(s) then Some(s)
    else if |s| > 0 && s[|s| - 1] == '\n' && IsHandle(s[..|s| - 1]) then Some(s[..|s| - 1])
    else None
  }

  /** A captured group cut at its first slash, then at its first question mark. */
  function Candidate(g: string): string {
    FirstSegment(FirstSegment(g, '/'), '?')
  }

  /** The final check on a candidate: non-empty, and letters and digits only once dots and underscores are ignored. */
  predicate ValidUsername(u: string) {
    |u| > 0 && IsAlnum(RemoveChar(RemoveChar(u, '.'), '_'))
  }

  /** A valid username is made of letters, digits, dots and underscores only. */
  lemma ValidUsernameIsHandle(u: string)
    requires ValidUsername(u)
    ensures IsHandle(u)
  {
    var w := RemoveChar(RemoveChar(u, '.'), '_');
    forall i | 0 <= i < |u|
      ensures IsHandleChar(u[i])
    {
      var x := u[i];
      if x != '.' && x != '_' {
        assert x in RemoveChar(u, '.');
        assert x in w;
        var k :| 0 <= k < |w| && w[k] == x;
      }
    }
  }

  /** A handle holds no separator, no `@` and no surrounding whitespace. */
  lemma HandleCharacters(u: string)
    requires IsHandle(u)
    ensures '/' !in u && '?' !in u && '@' !in u
    ensures Stripped(u)
  {
    forall i | 0 <= i < |u|
      ensures u[i] != '/' && u[i] != '?' && u[i] != '@' && !IsSpace(u[i])
    {
      assert IsHandleChar(u[i]);
    }
  }

  lemma ValidUsernamesAreHandles()
    ensures forall u :: ValidUsername(u) ==> IsHandle(u)
  {
    forall u | ValidUsername(u)
      ensures IsHandle(u)
    {
      ValidUsernameIsHandle(u);
    }
  }

  /** The username a pattern match yields, if it is valid. */
  const UsernameOf: Option<string> -> Option<string> :=
    (m: Option<string>) => if m.Some? && ValidUsername(Candidate(m.value)) then Some(Candidate(m.value)) else None

  /** What is left of a pasted link once it is stripped and every `@` removed. */
  function Cleaned(link: string): string {
    RemoveChar(Strip(link), '@')
  }

  /** The three patterns tried in order on a cleaned link. */
  function PatternMatches(s: string): seq<Option<string>> {
    [HostSearchFrom(s, 0, false), HostSearchFrom(s, 0, true), BareMatch(s)]
  }

  /**
   `extract_username_from_link`: the first pattern whose match yields a valid
   username decides; a username never holds `@`, `/` or `?`.
   */
  function ExtractUsername(link: string): (r: Option<string>)
    ensures r.Some? <==> exists k :: 0 <= k < 3 && UsernameOf(PatternMatches(Cleaned(link))[k]).Some?
    ensures r.Some? ==> ValidUsername(r.value) && IsHandle(r.value)
    ensures r.Some? ==> exists k :: 0 <= k < 3 && r == UsernameOf(PatternMatches(Cleaned(link))[k])
                                    && forall k' :: 0 <= k' < k ==> UsernameOf(PatternMatches(Cleaned(link))[k']).None?
  {
    ValidUsernamesAreHandles();
    FirstSome(PatternMatches(Cleaned(link)), UsernameOf)
  }

  /** A string without `/` holds no URL pattern match. */
  lemma NoHostWithoutSlash(s: string, needSlash: bool)
    requires '/' !in s
    ensures HostSearchFrom(s, 0, needSlash) == None
  {
    forall j | 0 <= j < |s|
      ensures !OccursAt(s, Host, j)
    {
      if j + |Host| <= |s| {
        assert s[j..j + |Host|][13] == s[j + 13];
        assert s[j + 13] in s;
      }
    }
  }

  /** On a bare handle, only the third pattern matches, and it matches the whole handle. */
  lemma PatternMatchesOfHandle(u: string)
    requires IsHandle(u)
    ensures PatternMatches(u) == [None, None, Some(u)]
  {
    HandleCharacters(u);
    NoHostWithoutSlash(u, false);
    NoHostWithoutSlash(u, true);
  }

  lemma BareMatchDecides(u: string)
    requires ValidUsername(u) && IsHandle(u)
    ensures FirstSome([None, None, Some(u)], UsernameOf) == Some(u)
  {
    HandleCharacters(u);
    var pm: seq<Option<string>> := [None, None, Some(u)];
    assert Candidate(u) == u;
    assert UsernameOf(pm[2]) == Some(u);
    assert FirstSomeFrom(pm, 2, UsernameOf) == Some(u);
    assert FirstSomeFrom(pm, 1, UsernameOf) == Some(u);
  }

  /** A cleaned link that is itself a valid username extracts to itself. */
  lemma CleanedUsernameExtracts(link: string, u: string)
    requires ValidUsername(u) && Cleaned(link) == u
    ensures ExtractUsername(link) == Some(u)
  {
    ValidUsernameIsHandle(u);
    PatternMatchesOfHandle(u);
    BareMatchDecides(u);
  }

  /** Extraction is idempotent: a username extracted from a link extracts to itself. */
  lemma ExtractUsernameIdempotent(link: string)
    requires ExtractUsername(link).Some?
    ensures ExtractUsername(ExtractUsername(link).value) == ExtractUsername(link)
  {
    var u := ExtractUsername(link).value;
    UsernameExtractsToItself(u);
  }

  /** A valid username, typed as is, is accepted unchanged. */
  lemma UsernameExtractsToItself(u: string)
    requires ValidUsername(u)
    ensures ExtractUsername(u) == Some(u)
  {
    ValidUsernameIsHandle(u);
    assert Stripped(u) by {
      assert IsHandleChar(u[0]) && IsHandleChar(u[|u| - 1]);
    }
    StripOfStripped(u);
    assert '@' !in u by {
      forall i | 0 <= i < |u|
        ensures u[i] != '@'
      {
        assert IsHandleChar(u[i]);
      }
    }
    CleanedUsernameExtracts(u, u);
  }

  /** A handle typed with a leading `@` is accepted without it. */
  lemma AtHandleExtracts(u: string)
    requires ValidUsername(u)
    ensures ExtractUsername("@" + u) == Some(u)
  {
    ValidUsernameIsHandle(u);
    HandleCharacters(u);
    var s := "@" + u;
    assert s[|s| - 1] == u[|u| - 1];
    StripOfStripped(s);
    assert s[1..] == u;
    assert RemoveChar(s, '@') == RemoveChar(u, '@');
    CleanedUsernameExtracts(s, u);
  }

  /** The canonical profile URL of a username. */
  function ProfileUrl(u: string): string {
    "https://www.instagram.com/" + u + "/"
  }

  lemma ProfileUrlCleaned(u: string)
    requires IsHandle(u)
    ensures Cleaned(ProfileUrl(u)) == ProfileUrl(u)
  {
    HandleCharacters(u);
    var prefix := "https://www.instagram.com/";
    var s := ProfileUrl(u);
    assert '@' !in prefix;
    assert '@' !in s by {
      assert s == prefix + (u + "/");
    }
    assert s[0] == 'h' && s[|s| - 1] == '/';
    StripOfStripped(s);
  }

  /** In a profile URL the leftmost `instagram.com/` is followed by exactly the username. */
  lemma ProfileUrlHostMatch(u: string)
    requires IsHandle(u)
    ensures HostSearchFrom(ProfileUrl(u), 0, false) == Some(u)
  {
    var s := ProfileUrl(u);
    forall j | 0 <= j < 12
      ensures !HostMatchAt(s, j, false)
    {
      assert s[j] != 'i';
      assert s[j..j + |Host|][0] == s[j];
    }
    assert s[12..12 + |Host|] == Host;
    forall j | 26 <= j < 26 + |u|
      ensures !IsSeparator(s[j])
    {
      assert s[j] == u[j - 26];
      assert IsHandleChar(u[j - 26]);
    }
    RunLengthOf(s, 26, |u|);
    assert HostMatchAt(s, 12, false);
    assert HostGroup(s, 12) == u;
  }

  lemma UrlMatchDecides(u: string, m: Option<string>, m': Option<string>)
    requires ValidUsername(u) && IsHandle(u)
    ensures FirstSome([Some(u), m, m'], UsernameOf) == Some(u)
  {
    HandleCharacters(u);
    assert Candidate(u) == u;
    assert UsernameOf(Some(u)) == Some(u);
  }

  /** The username is recovered from its profile URL. */
  lemma ProfileUrlExtracts(u: string)
    requires ValidUsername(u)
    ensures ExtractUsername(ProfileUrl(u)) == Some(u)
  {
    ValidUsernameIsHandle(u);
    ProfileUrlCleaned(u);
    ProfileUrlHostMatch(u);
    var s := ProfileUrl(u);
    UrlMatchDecides(u, HostSearchFrom(s, 0, true), BareMatch(s));
  }

  // ---------------------------------------------------------------------------
  // The saved list

  /**
   One saved profile. `username` and `nickname` are None when the stored
   record lacks the key (`link.get(...)` then yields the default).
   */
  datatype Link = Link(username: Option<string>, link: string, nickname: Option<string>)

  /** The record is saved under username `u`. */
  predicate SavedAs(l: Link, u: string) {
    l.username == Some(u)
  }

  const UsernameKey: Link -> Option<string> := (l: Link) => l.username

  /** No two saved records share a username. */
  predicate UniqueUsernames(links: seq<Link>) {
    DistinctKeys(links, UsernameKey)
  }

  /** The first record saved under `u`, as the loops of the manager find it. */
  function FindSaved(links: seq<Link>, u: string): (r: Option<nat>)
    ensures r.None? <==> forall i :: 0 <= i < |links| ==> !SavedAs(links[i], u)
    ensures r.Some? ==> r.value < |links| && SavedAs(links[r.value], u)
                        && forall i :: 0 <= i < r.value ==> !SavedAs(links[i], u)
    decreases |links|
  {
    if |links| == 0 then None
    else if SavedAs(links[0], u) then Some(0)
    else
      var r := FindSaved(links[1..], u);
      assert forall i :: 1 <= i < |links| ==> links[i] == links[1..][i - 1];
      if r.Some? then Some(r.value + 1) else None
  }

  /** The nickname as stored: the typed nickname without surrounding whitespace, or the username when nothing is left. */
  function StoredNickname(nickname: string, u: string): (r: string)
    ensures |Strip(nickname)| > 0 ==> r == Strip(nickname)
    ensures |Strip(nickname)| == 0 ==> r == u
  {
    if |Strip(nickname)| > 0 then Strip(nickname) else u
  }

  /** The list after an edit, the `(success, message)` pair of `add_link`. */
  datatype AddResult = AddResult(links: seq<Link>, ok: bool, message: string)

  const InvalidLinkMessage: string := "Invalid Instagram link or username"

  /**
   The part of `add_link` after the username `u` has been extracted: a saved
   username is refused; otherwise the record is appended and the message
   quotes the nickname as it was typed.
   */
  function AddUsername(links: seq<Link>, u: string, link: string, nickname: string): (r: AddResult)
    ensures r.ok <==> forall i :: 0 <= i < |links| ==> !SavedAs(links[i], u)
    ensures !r.ok ==> r == AddResult(links, false, "Profile @" + u + " is already saved")
    ensures r.ok ==> r.links == links + [Link(Some(u), link, Some(StoredNickname(nickname, u)))]
                     && r.message == "Added @" + u + " as '" + nickname + "'"
  {
    if FindSaved(links, u).Some? then AddResult(links, false, "Profile @" + u + " is already saved")
    else AddResult(links + [Link(Some(u), link, Some(StoredNickname(nickname, u)))], true,
                   "Added @" + u + " as '" + nickname + "'")
  }

  /** `add_link`: rejects a link without a valid username, then adds the username. */
  function AddLink(links: seq<Link>, link: string, nickname: string): (r: AddResult)
    ensures ExtractUsername(link).None? ==> r == AddResult(links, false, InvalidLinkMessage)
    ensures ExtractUsername(link).Some? ==> r == AddUsername(links, ExtractUsername(link).value, link, nickname)
    ensures !r.ok ==> r.links == links
  {
    var username := ExtractUsername(link);
    if !Truthy(username) then AddResult(links, false, InvalidLinkMessage)
    else AddUsername(links, username.value, link, nickname)
  }

  /** The list and the boolean result of `update_link` and `delete_link`. */
  datatype EditResult = EditResult(links: seq<Link>, changed: bool)

  /**
   `update_link`: sets the nickname of the first record saved under `u`;
   nothing else changes.
   */
  function UpdateLink(links: seq<Link>, u: string, nickname: string): (r: EditResult)
    ensures r.changed <==> exists i :: 0 <= i < |links| && SavedAs(links[i], u)
    ensures |r.links| == |links|
    ensures r.changed ==>
              var i := FindSaved(links, u).value;
              && r.links[i] == links[i].(nickname := Some(StoredNickname(nickname, u)))
              && forall k :: 0 <= k < |links| && k != i ==> r.links[k] == links[k]
    ensures !r.changed ==> r.links == links
    ensures forall k :: 0 <= k < |links| ==> r.links[k].username == links[k].username && r.links[k].link == links[k].link
  {
    match FindSaved(links, u)
    case Some(i) => EditResult(links[i := links[i].(nickname := Some(StoredNickname(nickname, u)))], true)
    case None => EditResult(links, false)
  }

  /** The records a delete of `u` keeps: those not saved under `u`. */
  function KeptBy(u: string): Link -> bool {
    (l: Link) => !SavedAs(l, u)
  }

  /**
   `delete_link`: removes every record saved under `u` and reports whether
   the list got shorter.
   */
  function DeleteLink(links: seq<Link>, u: string): (r: EditResult)
    ensures r.links == Filter(links, KeptBy(u))
    ensures forall l :: l in r.links <==> l in links && !SavedAs(l, u)
    ensures forall l :: multiset(r.links)[l] == if SavedAs(l, u) then 0 else multiset(links)[l]
    ensures r.changed <==> exists i :: 0 <= i < |links| && SavedAs(links[i], u)
    ensures !r.changed ==> r.links == links
  {
    var kept := Filter(links, KeptBy(u));
    FilterShrinks(links, KeptBy(u));
    if |kept| < |links| then EditResult(kept, true)
    else
      FilterKeepsAll(links, KeptBy(u));
      EditResult(kept, false)
  }

  /** `get_nickname`: the nickname of the first record saved under `u`, else `u` itself. */
  function GetNickname(links: seq<Link>, u: string): (r: string)
    ensures (forall i :: 0 <= i < |links| ==> !SavedAs(links[i], u)) ==> r == u
    ensures FindSaved(links, u).Some? ==> r == links[FindSaved(links, u).value].nickname.GetOr(u)
  {
    match FindSaved(links, u)
    case Some(i) => links[i].nickname.GetOr(u)
    case None => u
  }

  /** The username of a record, if it is truthy. */
  const TruthyUsername: Link -> Option<string> :=
    (l: Link) => if Truthy(l.username) then l.username else None

  /** Deleting from a list in two parts deletes from each part, keeping the order of the rest. */
  lemma DeleteLinkAppend(a: seq<Link>, b: seq<Link>, u: string)
    ensures DeleteLink(a + b, u).links == DeleteLink(a, u).links + DeleteLink(b, u).links
  {
    FilterAppend(a, b, KeptBy(u));
  }

  /** A non-empty username is counted once per record saved under it; the empty one never. */
  lemma {:induction false} TruthyUsernameHits(links: seq<Link>, u: string)
    ensures Hits(links, TruthyUsername, u) == if |u| > 0 then Hits(links, UsernameKey, u) else 0
    decreases |links|
  {
    if |links| > 0 {
      TruthyUsernameHits(links[1..], u);
    }
  }

  /** `get_all_usernames`: the non-empty usernames of the saved records, in order. */
  function GetAllUsernames(links: seq<Link>): (r: seq<string>)
    ensures |r| <= |links|
    ensures forall u :: u in r ==> |u| > 0 && exists i :: 0 <= i < |links| && SavedAs(links[i], u)
    ensures forall u :: multiset(r)[u] == if |u| > 0 then Hits(links, UsernameKey, u) else 0
  {
    var r := FilterMap(links, TruthyUsername);
    assert forall u :: multiset(r)[u] == if |u| > 0 then Hits(links, UsernameKey, u) else 0 by {
      forall u
        ensures multiset(r)[u] == if |u| > 0 then Hits(links, UsernameKey, u) else 0
      {
        TruthyUsernameHits(links, u);
      }
    }
    r
  }

  /** Listing the usernames of a list in two parts lists each part in turn. */
  lemma GetAllUsernamesAppend(a: seq<Link>, b: seq<Link>)
    ensures GetAllUsernames(a + b) == GetAllUsernames(a) + GetAllUsernames(b)
  {
    FilterMapAppend(a, b, TruthyUsername);
  }

  /** While saved usernames are distinct, none is listed twice. */
  lemma UniqueUsernamesListedOnce(links: seq<Link>, u: string)
    requires UniqueUsernames(links)
    ensures multiset(GetAllUsernames(links))[u] <= 1
  {
    DistinctKeysHitOnce(links, UsernameKey, u);
  }

  // ---------------------------------------------------------------------------
  // How the operations relate

  /** Every saved non-empty username is listed. */
  lemma SavedUsernameListed(links: seq<Link>, i: int)
    requires 0 <= i < |links| && Truthy(links[i].username)
    ensures links[i].username.value in GetAllUsernames(links)
  {
    FilterMapComplete(links, TruthyUsername, i);
  }

  /** `FindSaved` picks out the first record saved under `u`. */
  lemma FindSavedAt(links: seq<Link>, u: string, i: nat)
    requires i < |links| && SavedAs(links[i], u)
    requires forall k :: 0 <= k < i ==> !SavedAs(links[k], u)
    ensures FindSaved(links, u) == Some(i)
  {
  }

  /** Adding a username keeps usernames unique. */
  lemma AddUsernameKeepsUnique(links: seq<Link>, u: string, link: string, nickname: string)
    requires UniqueUsernames(links)
    ensures UniqueUsernames(AddUsername(links, u, link, nickname).links)
  {
    var r := AddUsername(links, u, link, nickname);
    if r.ok {
      var n := r.links;
      forall k | 0 <= k < |links|
        ensures UsernameKey(n[k]) != UsernameKey(n[|links|])
      {
        assert n[k] == links[k] && !SavedAs(links[k], u);
      }
      forall i, j | 0 <= i < |n| && 0 <= j < |n| && UsernameKey(n[i]).Some? && UsernameKey(n[i]) == UsernameKey(n[j])
        ensures i == j
      {
        if i < |links| && j < |links| {
          assert n[i] == links[i] && n[j] == links[j];
        }
      }
    }
  }

  /** Adding a link keeps usernames unique. */
  lemma AddKeepsUnique(links: seq<Link>, link: string, nickname: string)
    requires UniqueUsernames(links)
    ensures UniqueUsernames(AddLink(links, link, nickname).links)
  {
    if ExtractUsername(link).Some? {
      AddUsernameKeepsUnique(links, ExtractUsername(link).value, link, nickname);
    }
  }

  /** After a username is added, it is listed and its nickname is the one stored. */
  lemma AddUsernameThenLookUp(links: seq<Link>, u: string, link: string, nickname: string)
    requires |u| > 0 && AddUsername(links, u, link, nickname).ok
    ensures var n := AddUsername(links, u, link, nickname).links;
            && GetNickname(n, u) == StoredNickname(nickname, u)
            && u in GetAllUsernames(n)
  {
    var n := AddUsername(links, u, link, nickname).links;
    assert forall k :: 0 <= k < |links| ==> n[k] == links[k];
    FindSavedAt(n, u, |links|);
    SavedUsernameListed(n, |links|);
  }

  /** After a successful add, the username is listed and its nickname is the one stored. */
  lemma AddThenLookUp(links: seq<Link>, link: string, nickname: string)
    requires AddLink(links, link, nickname).ok
    ensures var u := ExtractUsername(link).value;
            var n := AddLink(links, link, nickname).links;
            && GetNickname(n, u) == StoredNickname(nickname, u)
            && u in GetAllUsernames(n)
  {
    AddUsernameThenLookUp(links, ExtractUsername(link).value, link, nickname);
  }

  /** Deleting a username just added restores the list. */
  lemma AddUsernameThenDelete(links: seq<Link>, u: string, link: string, nickname: string)
    requires AddUsername(links, u, link, nickname).ok
    ensures DeleteLink(AddUsername(links, u, link, nickname).links, u).links == links
  {
    var added := Link(Some(u), link, Some(StoredNickname(nickname, u)));
    FilterAppend(links, [added], KeptBy(u));
    FilterKeepsAll(links, KeptBy(u));
    assert Filter([added], KeptBy(u)) == [];
  }

  /** Deleting the username just added restores the list. */
  lemma AddThenDelete(links: seq<Link>, link: string, nickname: string)
    requires AddLink(links, link, nickname).ok
    ensures DeleteLink(AddLink(links, link, nickname).links, ExtractUsername(link).value).links == links
  {
    AddUsernameThenDelete(links, ExtractUsername(link).value, link, nickname);
  }

  /** After an update, the nickname looked up is the new one. */
  lemma UpdateThenLookUp(links: seq<Link>, u: string, nickname: string)
    requires UpdateLink(links, u, nickname).changed
    ensures GetNickname(UpdateLink(links, u, nickname).links, u) == StoredNickname(nickname, u)
  {
    var i := FindSaved(links, u).value;
    var n := UpdateLink(links, u, nickname).links;
    assert SavedAs(n[i], u);
    assert forall k :: 0 <= k < i ==> n[k] == links[k];
    FindSavedAt(n, u, i);
  }

  /** Updating keeps usernames unique, since no username changes. */
  lemma UpdateKeepsUnique(links: seq<Link>, u: string, nickname: string)
    requires UniqueUsernames(links)
    ensures UniqueUsernames(UpdateLink(links, u, nickname).links)
  {
    var n := UpdateLink(links, u, nickname).links;
    forall i, j | 0 <= i < |n| && 0 <= j < |n| && UsernameKey(n[i]).Some? && UsernameKey(n[i]) == UsernameKey(n[j])
      ensures i == j
    {
      assert UsernameKey(n[i]) == UsernameKey(links[i]) && UsernameKey(n[j]) == UsernameKey(links[j]);
    }
  }

  /** Deleting keeps usernames unique, and the deleted username is no longer listed or saved. */
  lemma DeleteThenLookUp(links: seq<Link>, u: string)
    requires UniqueUsernames(links)
    ensures var n := DeleteLink(links, u).links;
            && UniqueUsernames(n)
            && u !in GetAllUsernames(n)
            && GetNickname(n, u) == u
            && !DeleteLink(n, u).changed
  {
    FilterKeepsKeysDistinct(links, KeptBy(u), UsernameKey);
    var n := DeleteLink(links, u).links;
    forall i | 0 <= i < |n|
      ensures !SavedAs(n[i], u)
    {
      assert n[i] in n;
    }
  }
}
