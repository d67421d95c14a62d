/**
  The server status heuristic (`a2s_parse_server_status`) and its display
  label (`a2s_status_string`).
 */
module Status {
  import opened Wire

  /** `server_status_t`. */
  datatype ServerStatus = Unknown | Lobby | Loading | HostOnline

  /** The enumerator value C gives each status (declaration order). */
  function Code(s: ServerStatus): int {
    match s
    case Unknown => 0
    case Lobby => 1
    case Loading => 2
    case HostOnline => 3
  }

  /** "lobby" and "loading", the two words the heuristic looks for. */
  const LobbyWord: seq<byte> := [0x6C, 0x6F, 0x62, 0x62, 0x79]
  const LoadingWord: seq<byte> := [0x6C, 0x6F, 0x61, 0x64, 0x69, 0x6E, 0x67]

  /** `tolower` in the C locale: only 'A'..'Z' change. */
  function ToLower(b: byte): byte {
    if 0x41 <= b <= 0x5A then b + 0x20 else b
  }

  function Lower(s: seq<byte>): (l: seq<byte>)
    ensures |l| == |s| && forall i :: 0 <= i < |s| ==> l[i] == ToLower(s[i])
  {
    seq(|s|, i requires 0 <= i < |s| => ToLower(s[i]))
  }

  /** At most the first `n` bytes of `s`. */
  function Take(s: seq<byte>, n: nat): (t: seq<byte>)
    ensures |t| <= n && |t| <= |s| && t == s[..|t|]
    ensures |t| == n || t == s
  {
    if |s| <= n then s else s[..n]
  }

  /**
    The text of the lower-case copy the classifier makes of a C string into an
    array of `cap` bytes: at most `cap` - 1 bytes, each lower-cased.
   */
  function LowerCopy(s: seq<byte>, cap: nat): seq<byte>
    requires cap >= 1
  {
    Lower(Take(CStr(s), cap - 1))
  }

  /** `strstr(hay, needle) != NULL`: a scan from the left for `needle`. */
  function Contains(hay: seq<byte>, needle: seq<byte>): bool
    decreases |hay|
  {
    if |hay| < |needle| then false
    else hay[..|needle|] == needle || Contains(hay[1..], needle)
  }

  /** `needle` occurs in `hay` starting at index `i`. */
  predicate OccursAt(hay: seq<byte>, needle: seq<byte>, i: int) {
    0 <= i && i + |needle| <= |hay| && hay[i..i + |needle|] == needle
  }

  /** The scan finds `needle` exactly when it occurs at some index. */
  lemma {:induction false} ContainsMeansOccurs(hay: seq<byte>, needle: seq<byte>)
    ensures Contains(hay, needle) <==> exists i :: OccursAt(hay, needle, i)
    decreases |hay|
  {
    if |hay| < |needle| {
    } else if hay[..|needle|] == needle {
      assert OccursAt(hay, needle, 0);
    } else {
      ContainsMeansOccurs(hay[1..], needle);
      if exists i :: OccursAt(hay[1..], needle, i) {
        var i :| OccursAt(hay[1..], needle, i);
        assert hay[i + 1..i + 1 + |needle|] == hay[1..][i..i + |needle|];
        assert OccursAt(hay, needle, i + 1);
      }
      if exists i :: OccursAt(hay, needle, i) {
        var i :| OccursAt(hay, needle, i);
        assert i != 0;
        assert hay[1..][i - 1..i - 1 + |needle|] == hay[i..i + |needle|];
        assert OccursAt(hay[1..], needle, i - 1);
      }
    }
  }

  /** Bytes `i`.. of `s` spell the lower-case `word` when case is ignored. */
  predicate MatchesIgnoringCase(s: seq<byte>, word: seq<byte>, i: int) {
    0 <= i && i + |word| <= |s| && forall j :: 0 <= j < |word| ==> ToLower(s[i + j]) == word[j]
  }

  /**
    `word` appears, ignoring case, within the first `limit` bytes of the C
    string `s`.
   */
  ghost predicate Mentions(s: seq<byte>, word: seq<byte>, limit: nat) {
    exists i :: MatchesIgnoringCase(Take(CStr(s), limit), word, i)
  }

  /** Searching the lower-case copy is a case-insensitive search of the original. */
  lemma ContainsLowerCopy(s: seq<byte>, word: seq<byte>, cap: nat)
    requires cap >= 1
    ensures Contains(LowerCopy(s, cap), word) <==> Mentions(s, word, cap - 1)
  {
    var t := Take(CStr(s), cap - 1);
    var l := LowerCopy(s, cap);
    ContainsMeansOccurs(l, word);
    if exists i :: OccursAt(l, word, i) {
      var i :| OccursAt(l, word, i);
      forall j | 0 <= j < |word| ensures ToLower(t[i + j]) == word[j] {
        assert l[i..i + |word|][j] == l[i + j];
      }
      assert MatchesIgnoringCase(t, word, i);
    }
    if exists i :: MatchesIgnoringCase(t, word, i) {
      var i :| MatchesIgnoringCase(t, word, i);
      assert l[i..i + |word|] == word;
      assert OccursAt(l, word, i);
    }
  }

  /**
    The decision on the two lower-case texts the code searches: "lobby" in
    either wins, then "loading" in either, otherwise HostOnline.
   */
  function Decide(lowerName: seq<byte>, lowerMap: seq<byte>): ServerStatus {
    if Contains(lowerName, LobbyWord) || Contains(lowerMap, LobbyWord) then Lobby
    else if Contains(lowerName, LoadingWord) || Contains(lowerMap, LoadingWord) then Loading
    else HostOnline
  }

  /**
    `a2s_parse_server_status` as intended: the decision taken on the
    lower-cased name (up to 255 bytes) and map (up to 127 bytes), the room in
    the lower-case copies.
   */
  function Classify(name: seq<byte>, mapName: seq<byte>): (s: ServerStatus)
    ensures s != Unknown
  {
    Decide(LowerCopy(name, MaxServerName), LowerCopy(mapName, MaxMapName))
  }

  /**
    The classifier's decision rule stated on the original strings: a
    case-insensitive mention of "lobby" in name or map wins over "loading", and
    the result is never Unknown.
   */
  lemma ClassifyMeaning(name: seq<byte>, mapName: seq<byte>)
    ensures Classify(name, mapName) != Unknown
    ensures Classify(name, mapName) == Lobby <==>
      Mentions(name, LobbyWord, 255) || Mentions(mapName, LobbyWord, 127)
    ensures Classify(name, mapName) == Loading <==>
      !(Mentions(name, LobbyWord, 255) || Mentions(mapName, LobbyWord, 127)) &&
      (Mentions(name, LoadingWord, 255) || Mentions(mapName, LoadingWord, 127))
    ensures Classify(name, mapName) == HostOnline <==>
      !(Mentions(name, LobbyWord, 255) || Mentions(mapName, LobbyWord, 127)) &&
      !(Mentions(name, LoadingWord, 255) || Mentions(mapName, LoadingWord, 127))
  {
    ContainsLowerCopy(name, LobbyWord, MaxServerName);
    ContainsLowerCopy(mapName, LobbyWord, MaxMapName);
    ContainsLowerCopy(name, LoadingWord, MaxServerName);
    ContainsLowerCopy(mapName, LoadingWord, MaxMapName);
  }

  /** The classifier sees its arguments only as C strings. */
  lemma ClassifyOfCStr(name: seq<byte>, mapName: seq<byte>)
    ensures Classify(name, mapName) == Classify(CStr(name), CStr(mapName))
  {
    CStrOfUnterminated(CStr(name));
    CStrOfUnterminated(CStr(mapName));
  }

  /** A C string that fits the lower-case array is copied whole. */
  lemma LowerCopyOfShort(s: seq<byte>, cap: nat)
    requires cap >= 1 && NoNul(s) && |s| <= cap - 1
    ensures LowerCopy(s, cap) == Lower(s)
  {
    CStrOfUnterminated(s);
  }

  /** A needle with a byte that `hay` lacks is not found. */
  lemma {:induction false} NotContainsMissingByte(hay: seq<byte>, needle: seq<byte>, j: nat)
    requires j < |needle| && forall k :: 0 <= k < |hay| ==> hay[k] != needle[j]
    ensures !Contains(hay, needle)
    decreases |hay|
  {
    if |hay| >= |needle| {
      assert hay[..|needle|][j] == hay[j];
      NotContainsMissingByte(hay[1..], needle, j);
    }
  }

  /** A needle that occurs at a known index is found. */
  lemma ContainsAt(hay: seq<byte>, needle: seq<byte>, i: nat)
    requires OccursAt(hay, needle, i)
    ensures Contains(hay, needle)
  {
    ContainsMeansOccurs(hay, needle);
  }

  /**
    A short C string that spells "lobby", in any case, in the name or the map
    makes the status Lobby, whatever else the texts say.
   */
  lemma ClassifyLobbyFound(name: seq<byte>, mapName: seq<byte>, i: int)
    requires NoNul(name) && |name| < MaxServerName && NoNul(mapName) && |mapName| < MaxMapName
    requires MatchesIgnoringCase(name, LobbyWord, i) || MatchesIgnoringCase(mapName, LobbyWord, i)
    ensures Classify(name, mapName) == Lobby
  {
    LowerCopyOfShort(name, MaxServerName);
    LowerCopyOfShort(mapName, MaxMapName);
    if MatchesIgnoringCase(name, LobbyWord, i) {
      LowerFinds(name, LobbyWord, i);
    } else {
      LowerFinds(mapName, LobbyWord, i);
    }
  }

  /**
    Short C strings without a 'b' in either case cannot mention "lobby", so
    "loading" in the name or the map makes the status Loading.
   */
  lemma ClassifyLoadingFound(name: seq<byte>, mapName: seq<byte>, i: int)
    requires NoNul(name) && |name| < MaxServerName && NoNul(mapName) && |mapName| < MaxMapName
    requires forall k :: 0 <= k < |name| ==> ToLower(name[k]) != 0x62
    requires forall k :: 0 <= k < |mapName| ==> ToLower(mapName[k]) != 0x62
    requires MatchesIgnoringCase(name, LoadingWord, i) || MatchesIgnoringCase(mapName, LoadingWord, i)
    ensures Classify(name, mapName) == Loading
  {
    LowerCopyOfShort(name, MaxServerName);
    LowerCopyOfShort(mapName, MaxMapName);
    LowerWithoutB(name);
    LowerWithoutB(mapName);
    if MatchesIgnoringCase(name, LoadingWord, i) {
      LowerFinds(name, LoadingWord, i);
    } else {
      LowerFinds(mapName, LoadingWord, i);
    }
  }

  /** A case-insensitive match is found by the search of the lower-cased text. */
  lemma LowerFinds(s: seq<byte>, word: seq<byte>, i: int)
    requires MatchesIgnoringCase(s, word, i)
    ensures Contains(Lower(s), word)
  {
    assert Lower(s)[i..i + |word|] == word;
    ContainsAt(Lower(s), word, i);
  }

  /** Without a 'b' in either case the lower-cased text holds no "lobby". */
  lemma LowerWithoutB(s: seq<byte>)
    requires forall k :: 0 <= k < |s| ==> ToLower(s[k]) != 0x62
    ensures !Contains(Lower(s), LobbyWord)
  {
    NotContainsMissingByte(Lower(s), LobbyWord, 2);
  }

  /** "My Lobby Server": "lobby" inside the server name, in mixed case. */
  lemma ClassifyLobbyName(name: seq<byte>)
    requires name == [0x4D, 0x79, 0x20, 0x4C, 0x6F, 0x62, 0x62, 0x79, 0x20, 0x53, 0x65, 0x72, 0x76, 0x65, 0x72]
    ensures Classify(name, []) == Lobby
  {
    assert MatchesIgnoringCase(name, LobbyWord, 3);
    ClassifyLobbyFound(name, [], 3);
  }

  /** "LOBBY SERVER": "lobby" in upper case. */
  lemma ClassifyLobbyUpperCase(name: seq<byte>)
    requires name == [0x4C, 0x4F, 0x42, 0x42, 0x59, 0x20, 0x53, 0x45, 0x52, 0x56, 0x45, 0x52]
    ensures Classify(name, []) == Lobby
  {
    assert MatchesIgnoringCase(name, LobbyWord, 0);
    ClassifyLobbyFound(name, [], 0);
  }

  /** "lobby_map": "lobby" in the map name. */
  lemma ClassifyLobbyMap(mapName: seq<byte>)
    requires mapName == [0x6C, 0x6F, 0x62, 0x62, 0x79, 0x5F, 0x6D, 0x61, 0x70]
    ensures Classify([], mapName) == Lobby
  {
    assert MatchesIgnoringCase(mapName, LobbyWord, 0);
    ClassifyLobbyFound([], mapName, 0);
  }

  /** "Loading...": "loading" in the server name and no "lobby" anywhere. */
  lemma ClassifyLoadingName(name: seq<byte>)
    requires name == [0x4C, 0x6F, 0x61, 0x64, 0x69, 0x6E, 0x67, 0x2E, 0x2E, 0x2E]
    ensures Classify(name, []) == Loading
  {
    assert MatchesIgnoringCase(name, LoadingWord, 0);
    ClassifyLoadingFound(name, [], 0);
  }

  /** "loading_screen": "loading" in the map name and no "lobby" anywhere. */
  lemma ClassifyLoadingMap(mapName: seq<byte>)
    requires mapName == [0x6C, 0x6F, 0x61, 0x64, 0x69, 0x6E, 0x67, 0x5F, 0x73, 0x63, 0x72, 0x65, 0x65, 0x6E]
    ensures Classify([], mapName) == Loading
  {
    assert MatchesIgnoringCase(mapName, LoadingWord, 0);
    ClassifyLoadingFound([], mapName, 0);
  }

  /** Both words start with 'l', so names without an 'l' or 'L' leave the host online. */
  lemma ClassifyWithoutLetterL(name: seq<byte>, mapName: seq<byte>)
    requires forall k :: 0 <= k < |name| ==> ToLower(name[k]) != 0x6C
    requires forall k :: 0 <= k < |mapName| ==> ToLower(mapName[k]) != 0x6C
    ensures Classify(name, mapName) == HostOnline
  {
    var n, m := LowerCopy(name, MaxServerName), LowerCopy(mapName, MaxMapName);
    assert forall k :: 0 <= k < |n| ==> n[k] != 0x6C by {
      var t := Take(CStr(name), MaxServerName - 1);
      assert forall k :: 0 <= k < |t| ==> t[k] == name[k];
    }
    assert forall k :: 0 <= k < |m| ==> m[k] != 0x6C by {
      var t := Take(CStr(mapName), MaxMapName - 1);
      assert forall k :: 0 <= k < |t| ==> t[k] == mapName[k];
    }
    NotContainsMissingByte(n, LobbyWord, 0);
    NotContainsMissingByte(m, LobbyWord, 0);
    NotContainsMissingByte(n, LoadingWord, 0);
    NotContainsMissingByte(m, LoadingWord, 0);
  }

  /** "Guntshrouded" on "main_map": neither word, so the host is online. */
  lemma ClassifyHostOnline(name: seq<byte>, mapName: seq<byte>)
    requires name == [0x47, 0x75, 0x6E, 0x74, 0x73, 0x68, 0x72, 0x6F, 0x75, 0x64, 0x65, 0x64]
    requires mapName == [0x6D, 0x61, 0x69, 0x6E, 0x5F, 0x6D, 0x61, 0x70]
    ensures Classify(name, mapName) == HostOnline
  {
    ClassifyWithoutLetterL(name, mapName);
  }

  /**
    `a2s_status_string`: the switch over the enumerator value; any value other
    than the three named ones reads "Unknown".
   */
  function StatusLabel(code: int): (l: string)
    ensures l in {"Lobby", "Loading", "Host Online", "Unknown"}
    ensures l == "Unknown" <==> code !in {1, 2, 3}
  {
    if code == 1 then "Lobby"
    else if code == 2 then "Loading"
    else if code == 3 then "Host Online"
    else "Unknown"
  }

  /** Reading a label back: the inverse of `StatusLabel` on the four statuses. */
  function StatusOfLabel(text: string): ServerStatus {
    if text == "Lobby" then Lobby
    else if text == "Loading" then Loading
    else if text == "Host Online" then HostOnline
    else Unknown
  }

  /**
    Each status has its own label, so the label identifies the status; any
    value outside the enumeration is labelled like Unknown.
   */
  lemma StatusLabelRoundTrip(s: ServerStatus, code: int)
    ensures StatusOfLabel(StatusLabel(Code(s))) == s
    ensures code !in {1, 2, 3} ==> StatusLabel(code) == StatusLabel(Code(Unknown)) == "Unknown"
  {
  }

  /**
    The lower-case array as `a2s_parse_server_status` leaves it: the copied
    bytes, then whatever the `cap`-byte array held before (`prior`) up to index
    `cap` - 2, and the NUL the code writes at index `cap` - 1.
   */
  function LowerBufferAsWritten(s: seq<byte>, cap: nat, prior: seq<byte>): (buf: seq<byte>)
    requires cap >= 1 && |prior| == cap
    ensures |buf| == cap
  {
    var copied := LowerCopy(s, cap);
    copied + prior[|copied|..cap - 1] + [0]
  }

  /**
    The classifier as written: `strstr` runs over the lower-case arrays up to
    their first NUL, which need not be where the copy ended.
   */
  function ClassifyAsWritten(name: seq<byte>, mapName: seq<byte>, priorName: seq<byte>, priorMap: seq<byte>): (s: ServerStatus)
    requires |priorName| == MaxServerName && |priorMap| == MaxMapName
    ensures s != Unknown
  {
    Decide(CStr(LowerBufferAsWritten(name, MaxServerName, priorName)),
           CStr(LowerBufferAsWritten(mapName, MaxMapName, priorMap)))
  }

  /**
    An empty name and mapName over a name array that still holds "lobby" from
    earlier use: the code reports Lobby, the intended reading HostOnline.
   */
  lemma ClassifyAsWrittenReadsStaleBytes()
    ensures ClassifyAsWritten([], [], LobbyWord + seq(251, _ => 0), seq(128, _ => 0)) == Lobby
    ensures Classify([], []) == HostOnline
  {
    var buf := LowerBufferAsWritten([], MaxServerName, LobbyWord + seq(251, _ => 0));
    assert buf[..5] == LobbyWord;
    CStrOfTerminated(buf, LobbyWord);
  }

  /** Lower-casing keeps NUL and non-NUL bytes apart. */
  lemma LowerCopyNoNul(s: seq<byte>, cap: nat)
    requires cap >= 1
    ensures NoNul(LowerCopy(s, cap)) && |LowerCopy(s, cap)| <= cap - 1
  {
    var t := Take(CStr(s), cap - 1);
    assert forall i :: 0 <= i < |t| ==> t[i] == CStr(s)[i];
  }

  /** When the byte after the copy is NUL, `strstr` sees exactly the copy. */
  lemma LowerBufferReadsCopy(s: seq<byte>, cap: nat, prior: seq<byte>)
    requires cap >= 1 && |prior| == cap
    requires |LowerCopy(s, cap)| == cap - 1 || prior[|LowerCopy(s, cap)|] == 0
    ensures CStr(LowerBufferAsWritten(s, cap, prior)) == LowerCopy(s, cap)
  {
    var n := LowerCopy(s, cap);
    LowerCopyNoNul(s, cap);
    var nb := LowerBufferAsWritten(s, cap, prior);
    assert nb[..|n|] == n && nb[|n|] == 0;
    CStrOfTerminated(nb, n);
  }

  /**
    Whenever the stale byte right after the copy happens to be NUL (or the copy
    filled the array), the code agrees with the intended reading.
   */
  lemma ClassifyAsWrittenAgrees(name: seq<byte>, mapName: seq<byte>, priorName: seq<byte>, priorMap: seq<byte>)
    requires |priorName| == MaxServerName && |priorMap| == MaxMapName
    requires |LowerCopy(name, MaxServerName)| == MaxServerName - 1 || priorName[|LowerCopy(name, MaxServerName)|] == 0
    requires |LowerCopy(mapName, MaxMapName)| == MaxMapName - 1 || priorMap[|LowerCopy(mapName, MaxMapName)|] == 0
    ensures ClassifyAsWritten(name, mapName, priorName, priorMap) == Classify(name, mapName)
  {
    LowerBufferReadsCopy(name, MaxServerName, priorName);
    LowerBufferReadsCopy(mapName, MaxMapName, priorMap);
  }
}
