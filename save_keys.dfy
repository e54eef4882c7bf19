/** Save keys and file names: the key a player's save is stored under (Firebase-safe
    characters only) and the local file that holds it. The PlayerPrefs/GUID fallback key,
    the persistent data directory and the file I/O itself are not part of this model. */
module SaveKeys {
  import opened Wrappers
  import opened Text

  /** A Photon player as far as the key is concerned; either string may be null. */
  datatype Player = Player(userId: Option<string>, nickName: Option<string>)

  const Unknown: string := "Unknown"
  const DefaultPlayerKey: string := "local"

  /** The characters a Firebase key may not contain. */
  predicate Forbidden(c: char) {
    c == '.' || c == '#' || c == '$' || c == '[' || c == ']' || c == '/'
  }

  /** String.Replace of one character by '_'. */
  function ReplaceChar(s: string, c: char): (r: string)
    ensures |r| == |s|
  {
    seq(|s|, i requires 0 <= i < |s| => if s[i] == c then '_' else s[i])
  }

  /** "Unknown" for a null or empty key; otherwise the six replacements, in the source's order. */
  function SanitizeKey(key: Option<string>): string {
    if IsNullOrEmpty(key) then Unknown
    else ReplaceChar(ReplaceChar(ReplaceChar(ReplaceChar(ReplaceChar(ReplaceChar(key.value, '.'), '#'), '$'), '['), ']'), '/')
  }

  /** A non-empty key keeps its length and every allowed character; each forbidden character
      becomes '_', so none is left. */
  lemma SanitizeKeySpec(key: Option<string>)
    ensures IsNullOrEmpty(key) ==> SanitizeKey(key) == Unknown
    ensures !IsNullOrEmpty(key) ==>
              |SanitizeKey(key)| == |key.value|
              && forall i :: 0 <= i < |key.value| ==>
                   SanitizeKey(key)[i] == if Forbidden(key.value[i]) then '_' else key.value[i]
    ensures SanitizeKey(key) != []
    ensures forall i :: 0 <= i < |SanitizeKey(key)| ==> !Forbidden(SanitizeKey(key)[i])
  {
    var r := SanitizeKey(key);
    if IsNullOrEmpty(key) {
      assert forall i :: 0 <= i < |r| ==> r[i] in "Unknown";
    }
  }

  lemma SanitizeKeyIdempotent(key: Option<string>)
    ensures SanitizeKey(Some(SanitizeKey(key))) == SanitizeKey(key)
  {
    SanitizeKeySpec(key);
    var r := SanitizeKey(key);
    SanitizeKeySpec(Some(r));
  }

  /** The user id when it is set, else the nickname when it is set, else "Unknown";
      whichever is used is sanitised. */
  function GetPlayerKey(player: Option<Player>): string {
    if player.Some? && !IsNullOrEmpty(player.value.userId) then SanitizeKey(player.value.userId)
    else if player.Some? && !IsNullOrEmpty(player.value.nickName) then SanitizeKey(player.value.nickName)
    else Unknown
  }

  /** The key is never empty, never holds a forbidden character, and is the sanitised user id
      whenever there is one. */
  lemma GetPlayerKeySpec(player: Option<Player>)
    ensures GetPlayerKey(player) != []
    ensures forall i :: 0 <= i < |GetPlayerKey(player)| ==> !Forbidden(GetPlayerKey(player)[i])
    ensures player.Some? && !IsNullOrEmpty(player.value.userId) ==> GetPlayerKey(player) == SanitizeKey(player.value.userId)
    ensures player.Some? && IsNullOrEmpty(player.value.userId) && !IsNullOrEmpty(player.value.nickName) ==>
              GetPlayerKey(player) == SanitizeKey(player.value.nickName)
    ensures (player.None? || (IsNullOrEmpty(player.value.userId) && IsNullOrEmpty(player.value.nickName))) ==>
              GetPlayerKey(player) == Unknown
  {
    SanitizeKeySpec(Some(Unknown));
    if player.Some? {
      SanitizeKeySpec(player.value.userId);
      SanitizeKeySpec(player.value.nickName);
    }
  }

  /** "local" for a null or blank key, the trimmed key otherwise. */
  function NormalizeKey(playerKey: Option<string>): string {
    if IsNullOrWhiteSpace(playerKey) then DefaultPlayerKey else Trim(playerKey.value)
  }

  /** The normalised key is never blank and normalising twice changes nothing. */
  lemma NormalizeKeySpec(playerKey: Option<string>)
    ensures !AllWhiteSpace(NormalizeKey(playerKey)) && NormalizeKey(playerKey) != []
    ensures IsNullOrWhiteSpace(playerKey) ==> NormalizeKey(playerKey) == DefaultPlayerKey
    ensures !IsNullOrWhiteSpace(playerKey) ==> NormalizeKey(playerKey) == Trim(playerKey.value)
    ensures NormalizeKey(Some(NormalizeKey(playerKey))) == NormalizeKey(playerKey)
  {
    var r := NormalizeKey(playerKey);
    if IsNullOrWhiteSpace(playerKey) {
      assert !IsWhiteSpace(r[0]);
    } else {
      TrimEmpty(playerKey.value);
      TrimIdempotent(playerKey.value);
      TrimEmpty(r);
    }
    TrimEmpty(r);
  }

  /** GetSavePath's file name: "save_", the normalised key, ".json". */
  function SaveFileName(playerKey: Option<string>): string {
    "save_" + NormalizeKey(playerKey) + ".json"
  }

  /** The normalised key can be read back out of the file name, so two keys share a save file
      exactly when they normalise to the same key. */
  lemma SaveFileNameSpec(a: Option<string>, b: Option<string>)
    ensures |SaveFileName(a)| == |NormalizeKey(a)| + 10
    ensures SaveFileName(a)[..5] == "save_" && SaveFileName(a)[|SaveFileName(a)| - 5..] == ".json"
    ensures SaveFileName(a)[5..|SaveFileName(a)| - 5] == NormalizeKey(a)
    ensures SaveFileName(a) == SaveFileName(b) <==> NormalizeKey(a) == NormalizeKey(b)
  {
    var fa, fb := SaveFileName(a), SaveFileName(b);
    assert fa[5..|fa| - 5] == NormalizeKey(a);
    assert fb[5..|fb| - 5] == NormalizeKey(b);
  }

  /** Save's guard: null data is refused before any path is computed; otherwise the write goes
      to the key's file, and `writeSucceeds` stands for the file system's answer. */
  function SavePath(playerKey: Option<string>, data: Option<seq<int>>): Option<string> {
    if data.None? then None else Some(SaveFileName(playerKey))
  }

  function Save(playerKey: Option<string>, data: Option<seq<int>>, writeSucceeds: bool): bool {
    SavePath(playerKey, data).Some? && writeSucceeds
  }

  /** Null data never saves and never touches a file; any other data is written to the file of
      its normalised key and saves exactly when the write succeeds. */
  lemma SaveSpec(playerKey: Option<string>, data: Option<seq<int>>, writeSucceeds: bool)
    ensures data.None? ==> !Save(playerKey, data, writeSucceeds) && SavePath(playerKey, data) == None
    ensures data.Some? ==> SavePath(playerKey, data) == Some("save_" + NormalizeKey(playerKey) + ".json")
    ensures data.Some? ==> (Save(playerKey, data, writeSucceeds) <==> writeSucceeds)
  {
  }
}
