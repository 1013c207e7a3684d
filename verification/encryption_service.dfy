/** The mock container codec of the encryption service. "Encrypting" frames the
    file as the ASCII marker `encrypted:`, the password, a `:` and the file bytes;
    "decrypting" checks the marker and the password field inside the first 50
    bytes and strips everything up to the second `:` of the whole buffer. There
    is no cipher: the framing is modelled exactly as written. */
module EncryptionService {
  import opened Basics

  /** The ASCII code of `:`. */
  const Colon: byte := 58

  /** How many bytes of the file the decryptor decodes to look for the header. */
  const WindowSize: nat := 50

  /** How many progress steps each operation reports. */
  const TotalChunks: nat := 10

  const NotEncryptedMessage: string := "Not an encrypted file or unsupported format"
  const IncorrectPasswordMessage: string := "Incorrect password"

  /** The result object of both services: a success flag, the produced bytes (a
      Blob in the source) and an error message, the last two both optional. */
  datatype EncryptionResult = EncryptionResult(success: bool, data: Option<seq<byte>>, error: Option<string>)

  /** What one call produces: its result and the values it passed to the
      progress callback, in call order. */
  datatype Report = Report(result: EncryptionResult, progress: seq<int>)

  function Failed(message: string): EncryptionResult {
    EncryptionResult(false, None, Some(message))
  }

  function Succeeded(data: seq<byte>): EncryptionResult {
    EncryptionResult(true, Some(data), None)
  }

  /** The bytes of `encrypted:`. */
  function Marker(): (m: seq<byte>)
    ensures |m| == 10 && m[9] == Colon
    ensures forall i :: 0 <= i < 9 ==> m[i] != Colon
  {
    [101, 110, 99, 114, 121, 112, 116, 101, 100, 58]
  }

  /** The marker literal is the ASCII encoding of the text the source writes. */
  lemma MarkerIsEncryptedText()
    ensures Marker() == AsciiBytes("encrypted:")
  {
  }

  /** The progress values of the ten-step loop: ((i + 1) / 10) * 100 for i = 0..9. */
  function ProgressTrace(): (p: seq<int>)
    ensures |p| == TotalChunks && p[|p| - 1] == 100
    ensures forall i :: 0 <= i < |p| ==> 0 < p[i] <= 100
    ensures forall i, j :: 0 <= i <= j < |p| ==> p[i] <= p[j]
  {
    seq(TotalChunks, i requires 0 <= i < TotalChunks => (i + 1) * 100 / TotalChunks)
  }

  /** encryptFile: ten progress steps, then the framed bytes; it never fails. */
  function EncryptFile(content: seq<byte>, password: AsciiString): (r: Report)
    ensures r.result.success && r.result.error.None? && r.result.data.Some?
    ensures |r.result.data.value| == 11 + |password| + |content|
    ensures r.result.data.value[..|Marker()|] == Marker()
    ensures r.result.data.value[|r.result.data.value| - |content|..] == content
    ensures r.result.data.value == Marker() + AsciiBytes(password) + [Colon] + content
    ensures r.progress == ProgressTrace()
  {
    Report(Succeeded(Marker() + AsciiBytes(password) + [Colon] + content), ProgressTrace())
  }

  // ---------------------------------------------------------------------------
  // Locating colons

  /** Index of the first `:` in `s`, if any. */
  function ColonIndex(s: seq<byte>): (r: Option<nat>)
    ensures r.None? <==> Colon !in s
    ensures r.Some? ==> r.value < |s| && s[r.value] == Colon && Colon !in s[..r.value]
  {
    if |s| == 0 then None
    else if s[0] == Colon then Some(0)
    else match ColonIndex(s[1..])
      case None => None
      case Some(i) =>
        assert s[..i + 1] == [s[0]] + s[1..][..i];
        Some(i + 1)
  }

  /** The longest prefix of `s` that holds no `:`. */
  function UpToColon(s: seq<byte>): (r: seq<byte>)
    ensures Colon !in r
    ensures r <= s
    ensures |r| == |s| || s[|r|] == Colon
  {
    match ColonIndex(s)
    case None => s
    case Some(i) => s[..i]
  }

  /** `text.split(':')[1]`: the field between the first and the second `:` (or the
      end of `text`); absent when `text` holds no `:` at all. */
  function SecondField(text: seq<byte>): (r: Option<seq<byte>>)
    ensures r.None? <==> Colon !in text
    ensures r.Some? ==> ColonIndex(text).Some?
    ensures r.Some? ==>
              (var i := ColonIndex(text).value;
               && Colon !in r.value
               && r.value <= text[i + 1..]
               && (i + 1 + |r.value| == |text| || text[i + 1 + |r.value|] == Colon))
  {
    match ColonIndex(text)
    case None => None
    case Some(i) => Some(UpToColon(text[i + 1..]))
  }

  /** How many bytes of `s` are `:`. */
  function ColonCount(s: seq<byte>): nat {
    multiset(s)[Colon]
  }

  /** Counting one more element of a prefix. */
  lemma ColonCountExtend(arr: seq<byte>, i: nat)
    requires i < |arr|
    ensures ColonCount(arr[..i + 1]) == ColonCount(arr[..i]) + (if arr[i] == Colon then 1 else 0)
  {
    assert arr[..i + 1] == arr[..i] + [arr[i]];
    ColonCountAppend(arr[..i], [arr[i]]);
  }

  /** A prefix holds no more colons than the whole buffer. */
  lemma ColonCountPrefix(arr: seq<byte>, j: nat)
    requires j <= |arr|
    ensures ColonCount(arr[..j]) <= ColonCount(arr)
  {
    assert arr == arr[..j] + arr[j..];
    ColonCountAppend(arr[..j], arr[j..]);
  }

  /** The loop of findPrefixEnd from index `i`, having seen `seen` colons so far. */
  function ScanForSecondColon(arr: seq<byte>, i: nat, seen: nat): (r: nat)
    requires i <= |arr| && seen < 2
    requires seen == ColonCount(arr[..i])
    ensures r <= |arr|
    ensures r == 0 <==> ColonCount(arr) < 2
    ensures r != 0 ==> i < r && arr[r - 1] == Colon && ColonCount(arr[..r - 1]) == 1
    decreases |arr| - i
  {
    if i == |arr| then
      assert arr[..i] == arr;
      0
    else
      ColonCountExtend(arr, i);
      if arr[i] == Colon && seen == 1 then
        ColonCountPrefix(arr, i + 1);
        i + 1
      else
        ScanForSecondColon(arr, i + 1, if arr[i] == Colon then seen + 1 else seen)
  }

  /** findPrefixEnd: one past the second `:` of the buffer, or 0 when there is none. */
  function FindPrefixEnd(arr: seq<byte>): (r: nat)
    ensures r <= |arr|
    ensures r == 0 <==> ColonCount(arr) < 2
    ensures r != 0 ==> arr[r - 1] == Colon && ColonCount(arr[..r - 1]) == 1
  {
    assert arr[..0] == [];
    ScanForSecondColon(arr, 0, 0)
  }

  // ---------------------------------------------------------------------------
  // Decryption

  /** The first 50 bytes, as `file.slice(0, 50)` reads them. */
  function Window(data: seq<byte>): (w: seq<byte>)
    ensures w <= data && |w| == Min(|data|, WindowSize)
  {
    if |data| <= WindowSize then data else data[..WindowSize]
  }

  /** The UTF-8 byte order mark. */
  const Bom: seq<byte> := [0xEF, 0xBB, 0xBF]

  /** What the window's decoded text compares as: the decoder drops one leading
      byte order mark; every other byte keeps its place for the comparisons made
      (a `:` byte is always the character `:`, and a byte of 128 or more never
      decodes to an ASCII character). */
  function DecodedWindow(data: seq<byte>): (t: seq<byte>)
    ensures HasBom(Window(data)) ==> Bom + t == Window(data)
    ensures !HasBom(Window(data)) ==> t == Window(data)
  {
    var w := Window(data);
    if HasBom(w) then w[|Bom|..] else w
  }

  predicate HasBom(w: seq<byte>) {
    |Bom| <= |w| && w[..|Bom|] == Bom
  }

  /** A buffer that starts with the marker has no byte order mark, so its decoded
      window is its window. */
  lemma MarkedWindowIsDecoded(data: seq<byte>)
    requires StartsWithMarker(data)
    ensures DecodedWindow(data) == Window(data)
  {
    assert Window(data)[0] == data[..|Marker()|][0] == Marker()[0];
  }

  predicate StartsWithMarker(text: seq<byte>) {
    |text| >= |Marker()| && text[..|Marker()|] == Marker()
  }

  /** decryptFile: marker check, password check (both on the decoded window and
      without any progress), then ten progress steps and the buffer with
      everything up to its second `:` removed. */
  function DecryptFile(data: seq<byte>, password: AsciiString): (r: Report)
    ensures !r.result.success ==> r.progress == [] && r.result.data.None? && r.result.error.Some?
    ensures r.result.success ==> r.progress == ProgressTrace() && r.result.error.None?
    ensures !StartsWithMarker(DecodedWindow(data)) ==> r.result == Failed(NotEncryptedMessage)
    ensures StartsWithMarker(DecodedWindow(data)) ==>
              (r.result.success <==> SecondField(DecodedWindow(data)) == Some(AsciiBytes(password)))
    ensures StartsWithMarker(DecodedWindow(data)) && !r.result.success ==>
              r.result == Failed(IncorrectPasswordMessage)
    ensures r.result.success ==>
              r.result.data == Some(data[FindPrefixEnd(data)..])
              && |r.result.data.value| == |data| - FindPrefixEnd(data)
  {
    var firstBytes := DecodedWindow(data);
    if !StartsWithMarker(firstBytes) then
      Report(Failed(NotEncryptedMessage), [])
    else if SecondField(firstBytes) != Some(AsciiBytes(password)) then
      Report(Failed(IncorrectPasswordMessage), [])
    else
      Report(Succeeded(data[FindPrefixEnd(data)..]), ProgressTrace())
  }

  /** The service selected by the page's mode. */
  function Process(mode: Mode, content: seq<byte>, password: AsciiString): Report {
    match mode
    case Encrypt => EncryptFile(content, password)
    case Decrypt => DecryptFile(content, password)
  }

  // ---------------------------------------------------------------------------
  // Properties

  /** Passwords the framing can carry: no `:` and at most 40 bytes, so that the
      whole field fits in the 50-byte window after the 10-byte marker. */
  predicate Framable(password: AsciiString) {
    ':' !in password && |password| <= WindowSize - |Marker()|
  }

  lemma FramableHasNoColonByte(password: AsciiString)
    requires ':' !in password
    ensures Colon !in AsciiBytes(password)
  {
  }

  /** If `s` is `p` followed by nothing or by a `:`, and `p` holds no `:`, then the
      field read from `s` is exactly `p`. */
  lemma UpToColonOfField(s: seq<byte>, p: seq<byte>)
    requires p <= s && Colon !in p
    requires |s| == |p| || s[|p|] == Colon
    ensures UpToColon(s) == p
  {
  }

  /** Any buffer that starts with the marker has its first `:` at index 9. */
  lemma ColonIndexAfterMarker(s: seq<byte>)
    requires StartsWithMarker(s)
    ensures ColonIndex(s) == Some(9)
  {
    assert s[9] == Marker()[9];
  }

  /** Counting colons distributes over concatenation. */
  lemma ColonCountAppend(a: seq<byte>, b: seq<byte>)
    ensures ColonCount(a + b) == ColonCount(a) + ColonCount(b)
  {
    assert multiset(a + b) == multiset(a) + multiset(b);
  }

  /** findPrefixEnd is pinned down by its contract: a `:` at k - 1 with exactly one
      `:` before it identifies k. */
  lemma FindPrefixEndUnique(arr: seq<byte>, k: nat)
    requires 0 < k <= |arr| && arr[k - 1] == Colon && ColonCount(arr[..k - 1]) == 1
    ensures FindPrefixEnd(arr) == k
  {
    assert arr[..k] == arr[..k - 1] + [arr[k - 1]];
    ColonCountAppend(arr[..k - 1], [arr[k - 1]]);
    assert arr == arr[..k] + arr[k..];
    ColonCountAppend(arr[..k], arr[k..]);
    var r := FindPrefixEnd(arr);
    if r < k {
      assert arr[..k - 1] == arr[..r] + arr[r..k - 1];
      assert arr[..r] == arr[..r - 1] + [arr[r - 1]];
      ColonCountAppend(arr[..r], arr[r..k - 1]);
      ColonCountAppend(arr[..r - 1], [arr[r - 1]]);
    } else if r > k {
      assert arr[..r - 1] == arr[..k] + arr[k..r - 1];
      ColonCountAppend(arr[..k], arr[k..r - 1]);
    }
  }

  /** In a buffer framed as marker, field `f`, `:`, rest, with `f` free of `:` and
      short enough to end inside the window, the decryptor reads `f` as the
      password field. */
  lemma FramedField(f: seq<byte>, rest: seq<byte>)
    requires Colon !in f && |f| <= WindowSize - |Marker()|
    ensures var w := DecodedWindow(Marker() + f + [Colon] + rest);
            StartsWithMarker(w) && SecondField(w) == Some(f)
  {
    var data := Marker() + f + [Colon] + rest;
    assert data[..10] == Marker();
    MarkedWindowIsDecoded(data);
    var w := Window(data);
    assert w[..10] == Marker();
    ColonIndexAfterMarker(w);
    assert f <= w[10..];
    UpToColonOfField(w[10..], f);
  }

  /** ... and its prefix ends right after that closing `:`, wherever the
      window ends. */
  lemma FramedPrefixEnd(f: seq<byte>, rest: seq<byte>)
    requires Colon !in f
    ensures FindPrefixEnd(Marker() + f + [Colon] + rest) == 11 + |f|
  {
    var data := Marker() + f + [Colon] + rest;
    var k := 11 + |f|;
    assert data[..k - 1] == Marker() + f;
    ColonCountAppend(Marker(), f);
    assert Marker() == Marker()[..9] + [Colon];
    ColonCountAppend(Marker()[..9], [Colon]);
    assert Colon !in Marker()[..9];
    FindPrefixEndUnique(data, k);
  }

  /** When the decoded window holds the marker and the guess's field, decryption
      succeeds with what follows the buffer's second `:`. */
  lemma DecryptAccepts(data: seq<byte>, guess: AsciiString)
    requires StartsWithMarker(DecodedWindow(data))
    requires SecondField(DecodedWindow(data)) == Some(AsciiBytes(guess))
    ensures DecryptFile(data, guess) == Report(Succeeded(data[FindPrefixEnd(data)..]), ProgressTrace())
  {
  }

  /** Decrypting a framed buffer whose field is the guess's encoding succeeds and
      yields what follows the field's closing `:`. */
  lemma DecryptFramed(f: seq<byte>, rest: seq<byte>, guess: AsciiString)
    requires Colon !in f && |f| <= WindowSize - |Marker()| && AsciiBytes(guess) == f
    ensures DecryptFile(Marker() + f + [Colon] + rest, guess) == Report(Succeeded(rest), ProgressTrace())
  {
    var data := Marker() + f + [Colon] + rest;
    FramedField(f, rest);
    FramedPrefixEnd(f, rest);
    DropPrefix(Marker() + f + [Colon], rest, 0);
    DecryptAccepts(data, guess);
  }

  /** Round trip: decrypting an encrypted file with its own (framable) password
      succeeds and yields the original content. */
  lemma RoundTrip(content: seq<byte>, password: AsciiString)
    requires Framable(password)
    ensures DecryptFile(EncryptFile(content, password).result.data.value, password)
            == Report(Succeeded(content), ProgressTrace())
  {
    FramableHasNoColonByte(password);
    DecryptFramed(AsciiBytes(password), content, password);
  }

  /** A different password is refused, before any progress is reported. */
  lemma WrongPasswordRejected(content: seq<byte>, password: AsciiString, guess: AsciiString)
    requires Framable(password) && guess != password
    ensures DecryptFile(EncryptFile(content, password).result.data.value, guess)
            == Report(Failed(IncorrectPasswordMessage), [])
  {
    FramableHasNoColonByte(password);
    FramedField(AsciiBytes(password), content);
    AsciiBytesInjective(password, guess);
  }

  /** A field longer than the 40 bytes left in the window is cut at the window's
      end: the decryptor reads only its first 40 bytes. */
  lemma LongFieldWindow(f: seq<byte>, rest: seq<byte>)
    requires Colon !in f && |f| > WindowSize - |Marker()|
    ensures var w := DecodedWindow(Marker() + f + rest);
            StartsWithMarker(w) && SecondField(w) == Some(f[..40])
  {
    var data := Marker() + f + rest;
    assert data[..10] == Marker();
    MarkedWindowIsDecoded(data);
    var w := Window(data);
    assert w[..10] == Marker();
    ColonIndexAfterMarker(w);
    assert w[10..] == f[..40];
    UpToColonOfField(w[10..], f[..40]);
  }

  /** Outside the 40-byte bound the password comparison only sees the first 40 bytes of the
      password: that prefix alone is accepted and yields the content. */
  lemma LongPasswordPrefixAccepted(content: seq<byte>, password: AsciiString)
    requires ':' !in password && |password| > 40
    ensures IsAscii(password[..40])
    ensures DecryptFile(EncryptFile(content, password).result.data.value, password[..40])
            == Report(Succeeded(content), ProgressTrace())
  {
    var p := AsciiBytes(password);
    var data := Marker() + p + [Colon] + content;
    FramableHasNoColonByte(password);
    assert data == Marker() + p + ([Colon] + content);
    LongFieldWindow(p, [Colon] + content);
    assert AsciiBytes(password[..40]) == p[..40];
    FramedPrefixEnd(p, content);
    assert data == (Marker() + p + [Colon]) + content;
  }

  /** ... while the full password itself is refused. */
  lemma LongPasswordRejected(content: seq<byte>, password: AsciiString)
    requires ':' !in password && |password| > 40
    ensures DecryptFile(EncryptFile(content, password).result.data.value, password)
            == Report(Failed(IncorrectPasswordMessage), [])
  {
    var p := AsciiBytes(password);
    FramableHasNoColonByte(password);
    assert Marker() + p + [Colon] + content == Marker() + p + ([Colon] + content);
    LongFieldWindow(p, [Colon] + content);
  }

  /** Encoding distributes over concatenation. */
  lemma AsciiBytesConcat(s: AsciiString, t: AsciiString)
    ensures IsAscii(s + t)
    ensures AsciiBytes(s + t) == AsciiBytes(s) + AsciiBytes(t)
  {
  }

  /** A password holding a `:` never opens its own file: the field the decryptor
      reads stops at the first `:`, so it cannot equal the password. */
  lemma ColonPasswordRejected(content: seq<byte>, password: AsciiString)
    requires ':' in password
    ensures DecryptFile(EncryptFile(content, password).result.data.value, password)
            == Report(Failed(IncorrectPasswordMessage), [])
  {
    var data := EncryptFile(content, password).result.data.value;
    MarkedWindowIsDecoded(data);
    var w := Window(data);
    assert w[..10] == Marker();
    ColonIndexAfterMarker(w);
    var i :| 0 <= i < |password| && password[i] == ':';
    assert AsciiBytes(password)[i] == Colon;
  }

  /** For a password `a:b`, the part `a` alone (if it fits the window) is accepted,
      and the output keeps `b:` in front of the content. */
  lemma ColonPasswordPrefixAccepted(content: seq<byte>, a: AsciiString, b: AsciiString)
    requires ':' !in a && |a| <= 40
    ensures IsAscii(a + ":" + b)
    ensures DecryptFile(EncryptFile(content, a + ":" + b).result.data.value, a)
            == Report(Succeeded(AsciiBytes(b) + [Colon] + content), ProgressTrace())
  {
    AsciiBytesConcat(a, ":");
    AsciiBytesConcat(a + ":", b);
    var pa, pb := AsciiBytes(a), AsciiBytes(b);
    assert AsciiBytes(":") == [Colon];
    FramableHasNoColonByte(a);
    var data := EncryptFile(content, a + ":" + b).result.data.value;
    assert data == Marker() + pa + [Colon] + (pb + [Colon] + content);
    DecryptFramed(pa, pb + [Colon] + content, a);
  }

  /** A buffer with the marker and the right field but no second `:` anywhere is
      "decrypted" to itself, marker included. */
  lemma NoSecondColonKeepsWholeInput(password: AsciiString)
    requires ':' !in password && |password| <= 40
    ensures var data := Marker() + AsciiBytes(password);
            DecryptFile(data, password) == Report(Succeeded(data), ProgressTrace())
  {
    var p := AsciiBytes(password);
    var data := Marker() + p;
    FramableHasNoColonByte(password);
    assert data[..10] == Marker();
    MarkedWindowIsDecoded(data);
    assert Window(data) == data;
    ColonIndexAfterMarker(data);
    assert data[10..] == p;
    UpToColonOfField(data[10..], p);
    ColonCountAppend(Marker(), p);
    assert Marker() == Marker()[..9] + [Colon];
    ColonCountAppend(Marker()[..9], [Colon]);
    assert Colon !in Marker()[..9];
  }

  /** Behind a byte order mark the decoded window is the framed buffer's first 47
      bytes, and its field is still the password field when that fits. */
  lemma BomFramedField(f: seq<byte>, rest: seq<byte>)
    requires Colon !in f && |f| <= WindowSize - |Bom| - |Marker()|
    ensures var t := DecodedWindow(Bom + (Marker() + f + [Colon] + rest));
            StartsWithMarker(t) && SecondField(t) == Some(f)
  {
    var framed := Marker() + f + [Colon] + rest;
    var data := Bom + framed;
    assert Window(data)[..3] == Bom;
    var t := DecodedWindow(data);
    assert t == framed[..Min(|framed|, WindowSize - |Bom|)];
    assert t[..10] == Marker();
    ColonIndexAfterMarker(t);
    assert f <= t[10..];
    UpToColonOfField(t[10..], f);
  }

  /** Colon-free bytes in front shift findPrefixEnd by their length. */
  lemma FindPrefixEndShift(a: seq<byte>, b: seq<byte>)
    requires Colon !in a && FindPrefixEnd(b) != 0
    ensures FindPrefixEnd(a + b) == |a| + FindPrefixEnd(b)
  {
    var k := FindPrefixEnd(b);
    assert (a + b)[..|a| + k - 1] == a + b[..k - 1];
    ColonCountAppend(a, b[..k - 1]);
    assert (a + b)[|a| + k - 1] == b[k - 1];
    FindPrefixEndUnique(a + b, |a| + k);
  }

  /** A byte order mark holds no `:`, so the content still starts right after the
      field's closing `:`. */
  lemma BomFramedPrefixEnd(f: seq<byte>, rest: seq<byte>)
    requires Colon !in f
    ensures FindPrefixEnd(Bom + (Marker() + f + [Colon] + rest)) == |Bom| + 11 + |f|
  {
    FramedPrefixEnd(f, rest);
    assert Colon !in Bom;
    FindPrefixEndShift(Bom, Marker() + f + [Colon] + rest);
  }

  /** Dropping a whole prefix and then `j` more elements. */
  lemma DropPrefix(a: seq<byte>, b: seq<byte>, j: nat)
    requires j <= |b|
    ensures (a + b)[|a| + j..] == b[j..]
  {
  }

  /** ... so what decryption keeps of such a buffer is exactly the rest. */
  lemma BomFramedRest(f: seq<byte>, rest: seq<byte>)
    requires Colon !in f
    ensures var data := Bom + (Marker() + f + [Colon] + rest);
            data[FindPrefixEnd(data)..] == rest
  {
    var head := Marker() + f + [Colon];
    BomFramedPrefixEnd(f, rest);
    assert FindPrefixEnd(Bom + (head + rest)) == |Bom| + |head|;
    DropPrefix(Bom, head + rest, |head|);
    assert (head + rest)[|head|..] == rest;
  }

  /** Decrypting a framed buffer behind a byte order mark, with the field's
      password, succeeds and yields what follows the field's closing `:`. */
  lemma DecryptBomFramed(f: seq<byte>, rest: seq<byte>, guess: AsciiString)
    requires Colon !in f && |f| <= WindowSize - |Bom| - |Marker()| && AsciiBytes(guess) == f
    ensures DecryptFile(Bom + (Marker() + f + [Colon] + rest), guess) == Report(Succeeded(rest), ProgressTrace())
  {
    BomFramedField(f, rest);
    BomFramedRest(f, rest);
    DecryptAccepts(Bom + (Marker() + f + [Colon] + rest), guess);
  }

  /** The decoder drops a leading byte order mark, so an encrypted file with one
      in front is still accepted: with a password that fits the 47 bytes left
      after the mark, and with the marker, it decrypts to the original content. */
  lemma BomFramedAccepted(content: seq<byte>, password: AsciiString)
    requires ':' !in password && |password| <= WindowSize - |Bom| - |Marker()|
    ensures DecryptFile(Bom + EncryptFile(content, password).result.data.value, password)
            == Report(Succeeded(content), ProgressTrace())
  {
    FramableHasNoColonByte(password);
    DecryptBomFramed(AsciiBytes(password), content, password);
  }
}
