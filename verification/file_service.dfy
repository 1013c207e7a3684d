/** The file service: the name under which a result is downloaded, the guard
    that refuses to save a failed result, and the bounded most-recent-first
    history of processed files kept in the browser's storage. */
module FileService {
  import opened Basics
  import opened EncryptionService

  /** The extension appended to encrypted files. */
  const VaultExtension: string := ".vault"

  /** The prefix given to decrypted files that lack the extension. */
  const DecryptedPrefix: string := "decrypted_"

  /** The history keeps at most this many entries. */
  const MaxRecentFiles: nat := 10

  predicate EndsWith(s: string, suffix: string) {
    |suffix| <= |s| && s[|s| - |suffix|..] == suffix
  }

  predicate StartsWith(s: string, prefix: string) {
    |prefix| <= |s| && s[..|prefix|] == prefix
  }

  /** The name of the downloaded file. Encryption appends `.vault`; decryption
      removes a trailing `.vault` (the last six characters) or, when there is
      none, prefixes `decrypted_`. */
  function OutputName(name: string, mode: Mode): (r: string)
    ensures mode == Encrypt ==> EndsWith(r, VaultExtension) && |r| == |name| + |VaultExtension| && r[..|name|] == name
    ensures mode == Decrypt && EndsWith(name, VaultExtension) ==> r + VaultExtension == name
    ensures mode == Decrypt && !EndsWith(name, VaultExtension) ==>
              StartsWith(r, DecryptedPrefix) && r[|DecryptedPrefix|..] == name
  {
    match mode
    case Encrypt => name + VaultExtension
    case Decrypt =>
      if EndsWith(name, VaultExtension) then name[..|name| - |VaultExtension|]
      else DecryptedPrefix + name
  }

  /** Decrypting the name of an encrypted file gives back the original name. */
  lemma NameRoundTrip(name: string)
    ensures OutputName(OutputName(name, Encrypt), Decrypt) == name
  {
    var encrypted := OutputName(name, Encrypt);
    assert encrypted == name + VaultExtension;
    assert encrypted[|encrypted| - |VaultExtension|..] == VaultExtension;
  }

  /** Conversely, a `.vault` name is restored by decrypting then encrypting it. */
  lemma VaultNameRoundTrip(name: string)
    requires EndsWith(name, VaultExtension)
    ensures OutputName(OutputName(name, Decrypt), Encrypt) == name
  {
  }

  /** A file offered for download: its name and its bytes. */
  datatype Download = Download(fileName: string, data: seq<byte>)

  /** saveFile: nothing is downloaded unless the result is a success that carries
      data; otherwise the data is offered under the output name. */
  function SaveFile(result: EncryptionResult, originalName: string, mode: Mode): (r: Option<Download>)
    ensures r.None? <==> !result.success || result.data.None?
    ensures r.Some? ==> r.value.data == result.data.value
                        && r.value.fileName == OutputName(originalName, mode)
  {
    if !result.success || result.data.None? then None
    else Some(Download(OutputName(originalName, mode), result.data.value))
  }

  /** End to end: encrypting a file, then decrypting the downloaded `.vault` file
      with the same (framable) password, downloads the original name and bytes. */
  lemma DownloadRoundTrip(name: string, content: seq<byte>, password: AsciiString)
    requires Framable(password)
    ensures var sealed := SaveFile(EncryptFile(content, password).result, name, Encrypt);
            sealed.Some?
            && var restored := SaveFile(DecryptFile(sealed.value.data, password).result, sealed.value.fileName, Decrypt);
               restored == Some(Download(name, content))
  {
    RoundTrip(content, password);
    NameRoundTrip(name);
  }

  // ---------------------------------------------------------------------------
  // Recent files

  /** One history entry. */
  datatype RecentFile = RecentFile(id: string, name: string, date: int, mode: Mode)

  /** What storage holds under the history key: nothing, a parsed list, or text
      that does not parse. */
  datatype Stored = Missing | Saved(files: seq<RecentFile>) | Unreadable

  /** getRecentFiles: the stored list, or the empty list when nothing (or nothing
      readable) is stored. */
  function GetRecentFiles(stored: Stored): (r: seq<RecentFile>)
    ensures stored.Saved? ==> r == stored.files
    ensures !stored.Saved? ==> r == []
  {
    match stored
    case Saved(files) => files
    case _ => []
  }

  /** `[entry, ...history].slice(0, 10)`. */
  function PushRecent(history: seq<RecentFile>, entry: RecentFile): (r: seq<RecentFile>)
    ensures |r| == Min(|history| + 1, MaxRecentFiles)
    ensures r[0] == entry
    ensures r[1..] == history[..Min(|history|, MaxRecentFiles - 1)]
  {
    var r := ([entry] + history)[..Min(|history| + 1, MaxRecentFiles)];
    assert r[1..] == history[..Min(|history|, MaxRecentFiles - 1)];
    r
  }

  /** saveToRecentFiles: the new entry goes in front of the stored history, which
      is then cut to ten entries and stored again. */
  function SaveToRecentFiles(stored: Stored, entry: RecentFile): (r: Stored)
    ensures r.Saved?
    ensures var h := GetRecentFiles(r);
            1 <= |h| <= MaxRecentFiles && h[0] == entry
            && h[1..] == GetRecentFiles(stored)[..Min(|GetRecentFiles(stored)|, MaxRecentFiles - 1)]
  {
    Saved(PushRecent(GetRecentFiles(stored), entry))
  }

  function Reverse<T>(s: seq<T>): (r: seq<T>)
    ensures |r| == |s|
  {
    if s == [] then [] else Reverse(s[1..]) + [s[0]]
  }

  /** Saving several entries, one after the other. */
  function SaveAllRecent(stored: Stored, entries: seq<RecentFile>): Stored
    decreases |entries|
  {
    if entries == [] then stored
    else SaveAllRecent(SaveToRecentFiles(stored, entries[0]), entries[1..])
  }

  /** Cutting a list, appending it and cutting again keeps the first `m` elements. */
  lemma CutAfterCut<T>(a: seq<T>, b: seq<T>, n: nat, m: nat)
    requires n <= |b| && m <= |a| + n
    ensures (a + b[..n])[..m] == (a + b)[..m]
  {
    assert forall i :: 0 <= i < m ==> (a + b[..n])[i] == (a + b)[i];
  }

  /** After a series of saves the history lists the newest entry first, followed
      by the older ones, and keeps only the first ten. */
  lemma {:induction false} SaveAllNewestFirst(stored: Stored, entries: seq<RecentFile>)
    requires entries != []
    decreases |entries|
    ensures var earlier := GetRecentFiles(stored);
            GetRecentFiles(SaveAllRecent(stored, entries))
            == (Reverse(entries) + earlier)[..Min(|entries| + |earlier|, MaxRecentFiles)]
  {
    var h := GetRecentFiles(stored);
    var e, rest := entries[0], entries[1..];
    var next := SaveToRecentFiles(stored, e);
    var n := Min(|h| + 1, MaxRecentFiles);
    assert GetRecentFiles(next) == ([e] + h)[..n];
    assert Reverse(entries) + h == Reverse(rest) + ([e] + h);
    if rest == [] {
      assert Reverse(rest) == [];
    } else {
      SaveAllNewestFirst(next, rest);
      CutAfterCut(Reverse(rest), [e] + h, n, Min(|rest| + |h| + 1, MaxRecentFiles));
    }
  }
}
