/** The printed form of a generated key, Base64 in both alphabets, and the two validators
    that must accept it: the browser's and the provisioning API's. */
module SshKeyLine {
  import opened Wrappers
  import opened SshWire

  // ----- Base64 -----------------------------------------------------------------

  function Digit(i: nat): (c: char)
    requires i < 64
  {
    if i < 26 then (65 + i) as char
    else if i < 52 then (71 + i) as char
    else if i < 62 then (i - 4) as char
    else if i == 62 then '+' else '/'
  }

  predicate IsDigit64(c: char) {
    'A' <= c <= 'Z' || 'a' <= c <= 'z' || '0' <= c <= '9' || c == '+' || c == '/'
  }

  function Index(c: char): Option<nat> {
    if 'A' <= c <= 'Z' then Some(c as int - 65)
    else if 'a' <= c <= 'z' then Some(c as int - 71)
    else if '0' <= c <= '9' then Some(c as int + 4)
    else if c == '+' then Some(62)
    else if c == '/' then Some(63)
    else None
  }

  lemma DigitRoundTrip(i: nat)
    requires i < 64
    ensures Index(Digit(i)) == Some(i) && IsDigit64(Digit(i))
  {
  }

  /** The digits are those of section 4 of RFC 4648, in its order: capitals, small letters,
      numerals, `+` and `/`; and there are no others. */
  lemma DigitsInOrder(i: nat, c: char)
    requires i < 64
    ensures i == 0 ==> Digit(i) == 'A'
    ensures i == 26 ==> Digit(i) == 'a'
    ensures i == 52 ==> Digit(i) == '0'
    ensures i == 62 ==> Digit(i) == '+'
    ensures i == 63 ==> Digit(i) == '/'
    ensures i !in {0, 26, 52, 62, 63} ==> Digit(i) as int == Digit(i - 1) as int + 1
    ensures IsDigit64(c) <==> exists k: nat :: k < 64 && Digit(k) == c
  {
    if IsDigit64(c) {
      var k := Index(c).value;
      assert k < 64 && Digit(k) == c;
    }
  }

  /** The six-bit groups of one to three bytes. */
  function Groups(b: Bytes): (g: seq<nat>)
    requires 1 <= |b| <= 3
    ensures |g| == |b| + 1 && forall i :: 0 <= i < |g| ==> g[i] < 64
  {
    var x, y, z := b[0] as int, if |b| > 1 then b[1] as int else 0, if |b| > 2 then b[2] as int else 0;
    [x / 4, (x % 4) * 16 + y / 16]
    + (if |b| > 1 then [(y % 16) * 4 + z / 64] else [])
    + (if |b| > 2 then [z % 64] else [])
  }

  /** The bytes that two to four groups of six bits carry. */
  function Glue(g: seq<nat>): (b: Bytes)
    requires 2 <= |g| <= 4
  {
    [(g[0] * 4 + g[1] / 16) % 256]
    + (if |g| > 2 then [((g[1] % 16) * 16 + g[2] / 4) % 256] else [])
    + (if |g| > 3 then [((g[2] % 4) * 64 + g[3]) % 256] else [])
  }

  /** One to three bytes as digits, without padding. */
  function Quantum(b: Bytes): (s: string)
    requires 1 <= |b| <= 3
    ensures |s| == |b| + 1
  {
    var g := Groups(b);
    seq(|g|, i requires 0 <= i < |g| => Digit(g[i]))
  }

  /** `btoa` */
  function Encode(b: Bytes): string {
    if b == [] then ""
    else if |b| == 1 then Quantum(b) + "=="
    else if |b| == 2 then Quantum(b) + "="
    else Quantum(b[..3]) + Encode(b[3..])
  }

  /** The bytes of two to four digits. */
  function Unquantum(s: string): Option<Bytes>
    requires 2 <= |s| <= 4
  {
    if exists i :: 0 <= i < |s| && Index(s[i]).None? then None
    else Some(Glue(seq(|s|, i requires 0 <= i < |s| => Index(s[i]).value)))
  }

  /** `atob`, for strings whose length is a multiple of four. */
  function Decode(s: string): Option<Bytes> {
    if s == "" then Some([])
    else if |s| < 4 then None
    else if |s| == 4 && s[2] == '=' && s[3] == '=' then Unquantum(s[..2])
    else if |s| == 4 && s[3] == '=' then Unquantum(s[..3])
    else
      var head, tail := Unquantum(s[..4]), Decode(s[4..]);
      if head.None? || tail.None? then None else Some(head.value + tail.value)
  }

  lemma FirstByte(x: nat, y: nat)
    requires x < 256 && y < 256
    ensures ((x / 4) * 4 + ((x % 4) * 16 + y / 16) / 16) % 256 == x
  {
    assert ((x % 4) * 16 + y / 16) / 16 == x % 4;
  }

  lemma SecondByte(x: nat, y: nat, z: nat)
    requires y < 256 && z < 256
    ensures ((((x % 4) * 16 + y / 16) % 16) * 16 + ((y % 16) * 4 + z / 64) / 4) % 256 == y
  {
    assert ((x % 4) * 16 + y / 16) % 16 == y / 16;
    assert ((y % 16) * 4 + z / 64) / 4 == y % 16;
  }

  lemma ThirdByte(y: nat, z: nat)
    requires z < 256
    ensures ((((y % 16) * 4 + z / 64) % 4) * 64 + z % 64) % 256 == z
  {
    assert ((y % 16) * 4 + z / 64) % 4 == z / 64;
  }

  lemma GroupsGlue(b: Bytes)
    requires 1 <= |b| <= 3
    ensures Glue(Groups(b)) == b
  {
    var x, y, z := b[0] as nat, if |b| > 1 then b[1] as nat else 0, if |b| > 2 then b[2] as nat else 0;
    FirstByte(x, y);
    SecondByte(x, y, z);
    ThirdByte(y, z);
  }

  lemma QuantumRoundTrip(b: Bytes)
    requires 1 <= |b| <= 3
    ensures Unquantum(Quantum(b)) == Some(b)
    ensures forall i :: 0 <= i < |Quantum(b)| ==> IsDigit64(Quantum(b)[i])
  {
    GroupsGlue(b);
    hide Groups, Glue;
    var g, s := Groups(b), Quantum(b);
    forall i | 0 <= i < |g|
      ensures Index(s[i]) == Some(g[i]) && IsDigit64(s[i])
    {
      DigitRoundTrip(g[i]);
    }
    assert seq(|s|, i requires 0 <= i < |s| => Index(s[i]).value) == g;
  }

  lemma {:induction false} Base64RoundTrip(b: Bytes)
    ensures Decode(Encode(b)) == Some(b)
  {
    if b != [] {
      var head := if |b| < 3 then b else b[..3];
      QuantumRoundTrip(head);
      assert !IsDigit64('=');
      hide Quantum, Unquantum, IsDigit64;
      if |b| >= 3 {
        Base64RoundTrip(b[3..]);
        assert b == b[..3] + b[3..];
        assert Encode(b)[..4] == Quantum(head) && Encode(b)[4..] == Encode(b[3..]);
        assert Encode(b)[3] == Quantum(head)[3];
      } else {
        assert Encode(b)[..|b| + 1] == Quantum(b);
        assert |b| == 2 ==> Encode(b)[2] == Quantum(b)[2];
      }
    }
  }

  // ----- the JWK alphabet ---------------------------------------------------------------

  function Pads(n: nat): (s: string)
    ensures |s| == n
    ensures forall i :: 0 <= i < n ==> s[i] == '='
  {
    if n == 0 then "" else "=" + Pads(n - 1)
  }

  function Standard(c: char): char {
    if c == '-' then '+' else if c == '_' then '/' else c
  }

  function UrlSafe(c: char): char {
    if c == '+' then '-' else if c == '/' then '_' else c
  }

  /** The URL-safe digits are those of section 5 of RFC 4648, and read back as the others. */
  lemma UrlSafeDigits(i: nat)
    requires i < 64
    ensures UrlSafe(Digit(i)) == if i == 62 then '-' else if i == 63 then '_' else Digit(i)
    ensures Standard(UrlSafe(Digit(i))) == Digit(i)
  {
  }

  /** `decodeBase64Url`: back to the standard alphabet, padded to a multiple of four. */
  function DecodeBase64Url(s: string): Option<Bytes> {
    Decode(Mapped(s, Standard) + Pads((4 - |s| % 4) % 4))
  }

  /** How many padding characters `Encode` appends. */
  function PadCount(b: Bytes): nat {
    (3 - |b| % 3) % 3
  }

  /** The digits of an encoding, without its padding. */
  function Body(b: Bytes): string {
    if b == [] then "" else if |b| < 3 then Quantum(b) else Quantum(b[..3]) + Body(b[3..])
  }

  lemma {:induction false} BodyLength(b: Bytes)
    ensures |Body(b)| + PadCount(b) == 4 * ((|b| + 2) / 3) && (b != [] ==> |Body(b)| > 0)
  {
    hide Quantum;
    if |b| >= 3 {
      var m := b[3..];
      BodyLength(m);
      assert PadCount(b) == PadCount(m) && (|b| + 2) / 3 == (|m| + 2) / 3 + 1;
    }
  }

  lemma {:induction false} BodyShape(b: Bytes)
    ensures |Body(b)| + PadCount(b) == 4 * ((|b| + 2) / 3) && (b != [] ==> |Body(b)| > 0)
    ensures forall i :: 0 <= i < |Body(b)| ==> IsDigit64(Body(b)[i])
  {
    BodyLength(b);
    if b != [] {
      QuantumRoundTrip(if |b| < 3 then b else b[..3]);
      hide Quantum, Unquantum, IsDigit64, PadCount;
      if |b| >= 3 {
        BodyShape(b[3..]);
      }
    }
  }

  lemma {:induction false} EncodeShape(b: Bytes)
    ensures Encode(b) == Body(b) + Pads(PadCount(b))
  {
    hide Quantum;
    if |b| >= 3 {
      EncodeShape(b[3..]);
      assert PadCount(b) == PadCount(b[3..]);
    } else {
      assert Pads(0) == "" && Pads(1) == "=" && Pads(2) == "==";
    }
  }

  function Mapped(s: string, f: char -> char): (r: string)
    ensures |r| == |s| && forall i :: 0 <= i < |s| ==> r[i] == f(s[i])
  {
    seq(|s|, i requires 0 <= i < |s| => f(s[i]))
  }

  /** How a JSON Web Key carries bytes: URL-safe digits without padding. */
  function EncodeBase64Url(b: Bytes): string {
    Mapped(Body(b), UrlSafe)
  }

  /** Every byte string exported in a JSON Web Key is recovered. */
  lemma Base64UrlRoundTrip(b: Bytes)
    ensures DecodeBase64Url(EncodeBase64Url(b)) == Some(b)
  {
    EncodeShape(b);
    BodyShape(b);
    Base64RoundTrip(b);
    hide Encode, Decode, Body;
    var back := Mapped(EncodeBase64Url(b), Standard);
    assert back == Body(b) by {
      forall i | 0 <= i < |Body(b)|
        ensures back[i] == Body(b)[i]
      {
        assert IsDigit64(Body(b)[i]);
      }
    }
    assert (4 - |back| % 4) % 4 == PadCount(b);
  }

  // ----- the line -----------------------------------------------------------------------

  /** White space below 128 as JavaScript's `\s` and `trim` see it. */
  predicate JsSpace(c: char) {
    '\t' <= c <= '\r' || c == ' '
  }

  /** White space below 128 as Python's `str.split` and `strip` see it. */
  predicate PySpace(c: char) {
    '\t' <= c <= '\r' || '\U{1c}' <= c <= ' '
  }

  function DropSpaces(s: string, space: char -> bool): (r: string)
    ensures |r| <= |s| && (r != "" ==> !space(r[0]))
  {
    if s != "" && space(s[0]) then DropSpaces(s[1..], space) else s
  }

  function DropTrailing(s: string, space: char -> bool): (r: string)
    ensures |r| <= |s|
  {
    if s != "" && space(s[|s| - 1]) then DropTrailing(s[..|s| - 1], space) else s
  }

  function Trim(s: string, space: char -> bool): (r: string)
    ensures |r| <= |s|
  {
    DropTrailing(DropSpaces(s, space), space)
  }

  /** `replace(/\s+/g, "-")` */
  function Hyphenate(s: string): (r: string)
    ensures forall i :: 0 <= i < |r| ==> !JsSpace(r[i])
    decreases |s|
  {
    if s == "" then ""
    else if JsSpace(s[0]) then "-" + Hyphenate(DropSpaces(s[1..], JsSpace))
    else [s[0]] + Hyphenate(s[1..])
  }

  function Comment(name: string): (r: string)
    ensures r != "" && forall i :: 0 <= i < |r| ==> !JsSpace(r[i])
  {
    var c := Hyphenate(Trim(name, JsSpace));
    if c == "" then "pvemaster" else c
  }

  function KeyLine(kind: string, enc: string, comment: string): string {
    kind + " " + enc + " " + comment
  }

  /** `publicKey` of a generated pair. */
  function PublicLine(e: Bytes, n: Bytes, name: string): string {
    KeyLine("ssh-rsa", Encode(Blob(e, n)), Comment(name))
  }

  // ----- the validators -----------------------------------------------------------------

  function FirstWord(s: string, space: char -> bool): (r: string)
    ensures r <= s && forall i :: 0 <= i < |r| ==> !space(r[i])
    ensures |r| < |s| ==> space(s[|r|])
  {
    if s == "" || space(s[0]) then "" else [s[0]] + FirstWord(s[1..], space)
  }

  /** The maximal runs without white space. */
  function Words(s: string, space: char -> bool): seq<string>
    decreases |s|
  {
    var t := DropSpaces(s, space);
    if t == "" then []
    else
      var w := FirstWord(t, space);
      assert w != "" by { assert !space(t[0]); }
      [w] + Words(t[|w|..], space)
  }

  function SplitLines(s: string): (r: seq<string>)
    ensures r != []
  {
    if s == "" then [""]
    else
      var rest := SplitLines(s[1..]);
      if s[0] == '\n' then [""] + rest else [[s[0]] + rest[0]] + rest[1..]
  }

  function NonBlank(lines: seq<string>): seq<string> {
    if lines == [] then []
    else
      var t := Trim(lines[0], JsSpace);
      (if t == "" then [] else [t]) + NonBlank(lines[1..])
  }

  const KEY_TYPES := {"ssh-ed25519", "ssh-rsa", "ecdsa-sha2-nistp256"}

  /** `^[A-Za-z0-9+/]+={0,2}$` and a length divisible by four. */
  predicate Base64Shape(s: string) {
    |s| % 4 == 0 && exists k :: 0 <= k <= 2 && k < |s| && HasShape(s, k)
  }

  predicate HasShape(s: string, pads: nat) {
    pads < |s| && (forall i :: 0 <= i < |s| - pads ==> IsDigit64(s[i])) && s[|s| - pads..] == Pads(pads)
  }

  predicate SizeFits(b: Option<Bytes>) {
    b.Some? && 16 <= |b.value| <= 2048
  }

  predicate KeyAccepted(key: string) {
    && |key| <= 4096
    && (var parts := Words(key, JsSpace);
        |parts| >= 2 && parts[0] in KEY_TYPES && Base64Shape(parts[1]) && SizeFits(Decode(parts[1])))
  }

  /** `validateSshPublicKeys`: the keys, when there is no error. */
  function ValidateSshPublicKeys(value: string): Option<seq<string>> {
    var keys := NonBlank(SplitLines(value));
    if 1 <= |keys| <= 8 && forall i :: 0 <= i < |keys| ==> KeyAccepted(keys[i]) then Some(keys) else None
  }

  /** `CloudInitRequest.validate_ssh_keys` for one value: the API accepts it. */
  predicate BackendAccepts(value: string) {
    && |value| <= 4096 && '\n' !in value && '\r' !in value
    && (var parts := Words(Trim(value, PySpace), PySpace);
        |parts| >= 2 && parts[0] in KEY_TYPES && Base64Shape(parts[1]) && SizeFits(Decode(parts[1])))
  }

  // ----- generated keys are accepted ----------------------------------------------------------

  /** A word ends where white space follows or nothing does. */
  lemma {:induction false} FirstWordStops(w: string, rest: string, space: char -> bool)
    requires forall i :: 0 <= i < |w| ==> !space(w[i])
    requires rest == "" || space(rest[0])
    ensures FirstWord(w + rest, space) == w
  {
    var s := w + rest;
    if w != "" {
      assert s[1..] == w[1..] + rest;
      FirstWordStops(w[1..], rest, space);
    } else {
      assert s == rest;
    }
  }

  lemma WordsOfTwo(a: string, b: string, rest: string, space: char -> bool)
    requires a != "" && b != "" && space(' ')
    requires forall i :: 0 <= i < |a| ==> !space(a[i])
    requires forall i :: 0 <= i < |b| ==> !space(b[i])
    requires rest == "" || space(rest[0])
    ensures var ws := Words(a + " " + b + rest, space); |ws| >= 2 && ws[0] == a && ws[1] == b
  {
    hide Words;
    var s, t := a + " " + b + rest, " " + b + rest;
    assert s == a + t;
    WordComesFirst(a, t, space);
    assert t[1..] == b + rest;
    SpaceIsSkipped(t, space);
    WordComesFirst(b, rest, space);
  }

  lemma WordComesFirst(w: string, rest: string, space: char -> bool)
    requires w != "" && forall i :: 0 <= i < |w| ==> !space(w[i])
    requires rest == "" || space(rest[0])
    ensures Words(w + rest, space) == [w] + Words(rest, space)
  {
    var s := w + rest;
    assert s[0] == w[0];
    assert DropSpaces(s, space) == s;
    FirstWordStops(w, rest, space);
    assert s[|w|..] == rest;
  }

  lemma SpaceIsSkipped(s: string, space: char -> bool)
    requires s != "" && space(s[0])
    ensures Words(s, space) == Words(s[1..], space)
  {
    assert DropSpaces(s, space) == DropSpaces(s[1..], space);
  }

  lemma {:induction false} OneLine(s: string)
    requires '\n' !in s
    ensures SplitLines(s) == [s]
  {
    if s != "" {
      assert s[0] != '\n';
      OneLine(s[1..]);
      assert [s[0]] + s[1..] == s;
    }
  }

  /** What an encoding looks like to both validators. */
  lemma EncodedIsWellShaped(b: Bytes)
    requires b != []
    ensures Base64Shape(Encode(b)) && Encode(b) != "" && Decode(Encode(b)) == Some(b)
  {
    EncodeShape(b);
    BodyShape(b);
    Base64RoundTrip(b);
    hide Encode, Decode, Body, IsDigit64;
    assert Encode(b)[|Body(b)|..] == Pads(PadCount(b));
    assert HasShape(Encode(b), PadCount(b));
  }

  lemma EncodedHasNoSpace(b: Bytes)
    ensures forall i :: 0 <= i < |Encode(b)| ==> !JsSpace(Encode(b)[i]) && !PySpace(Encode(b)[i])
  {
    EncodeShape(b);
    BodyShape(b);
    hide Encode, Body;
    forall i | 0 <= i < |Encode(b)|
      ensures !JsSpace(Encode(b)[i]) && !PySpace(Encode(b)[i])
    {
      assert i < |Body(b)| ==> IsDigit64(Body(b)[i]);
    }
  }

  /** Trimming takes nothing but part of what follows the head. */
  lemma {:induction false} TrailingKeepsHead(head: string, tail: string, space: char -> bool) returns (rest: string)
    requires head != "" && !space(head[|head| - 1])
    ensures DropTrailing(head + tail, space) == head + rest && rest <= tail
    decreases |tail|
  {
    var s := head + tail;
    if tail == "" {
      rest := "";
      assert s == head;
    } else if space(s[|s| - 1]) {
      assert s[..|s| - 1] == head + tail[..|tail| - 1];
      rest := TrailingKeepsHead(head, tail[..|tail| - 1], space);
    } else {
      rest := tail;
    }
  }

  /** The line is one key whose first two words are the type and the encoded blob. */
  lemma LineWords(kind: string, enc: string, comment: string, space: char -> bool)
    requires space == JsSpace || space == PySpace
    requires kind != "" && forall i :: 0 <= i < |kind| ==> !space(kind[i])
    requires enc != "" && forall i :: 0 <= i < |enc| ==> !space(enc[i])
    ensures var ws := Words(Trim(KeyLine(kind, enc, comment), space), space);
      |ws| >= 2 && ws[0] == kind && ws[1] == enc
  {
    var head, tail := kind + " " + enc, " " + comment;
    var line := KeyLine(kind, enc, comment);
    assert line == head + tail;
    assert line[0] == kind[0];
    assert DropSpaces(line, space) == line;
    assert head[|head| - 1] == enc[|enc| - 1];
    var rest := TrailingKeepsHead(head, tail, space);
    WordsOfTwo(kind, enc, rest, space);
  }

  lemma TrimNothing(s: string, space: char -> bool)
    requires s != "" && !space(s[0]) && !space(s[|s| - 1])
    ensures Trim(s, space) == s
  {
  }

  /** The words a key line may begin with. */
  ghost predicate SupportedKind(kind: string) {
    kind == "ssh-ed25519" || kind == "ssh-rsa" || kind == "ecdsa-sha2-nistp256"
  }

  /** Digits in full groups of four, of which the last may end in one or two `=`. */
  ghost predicate IsBase64(enc: string) {
    |enc| % 4 == 0 && exists k :: 0 <= k <= 2 && DigitsThenPads(enc, k)
  }

  ghost predicate DigitsThenPads(enc: string, k: int) {
    && 0 <= k < |enc|
    && (forall i :: 0 <= i < |enc| - k ==> exists d: nat :: d < 64 && Digit(d) == enc[i])
    && (forall i :: |enc| - k <= i < |enc| ==> enc[i] == '=')
  }

  lemma ShapeMeans(enc: string)
    ensures Base64Shape(enc) <==> IsBase64(enc)
  {
    forall k | 0 <= k <= 2 && k < |enc|
      ensures HasShape(enc, k) <==> DigitsThenPads(enc, k)
    {
      var end := enc[|enc| - k..];
      assert end == Pads(k) <==> forall i :: |enc| - k <= i < |enc| ==> enc[i] == '=' by {
        if end == Pads(k) {
          forall i | |enc| - k <= i < |enc|
            ensures enc[i] == '='
          {
            assert end[i - (|enc| - k)] == '=';
          }
        }
      }
      forall i | 0 <= i < |enc| - k
        ensures IsDigit64(enc[i]) <==> exists d: nat :: d < 64 && Digit(d) == enc[i]
      {
        DigitsInOrder(0, enc[i]);
      }
      hide IsDigit64, Digit, Pads;
    }
    hide HasShape, DigitsThenPads;
  }

  /** What a key line must be: of a supported kind, in Base64, and within the sizes. */
  ghost predicate GoodLine(kind: string, enc: string, comment: string) {
    && SupportedKind(kind) && |kind| + |enc| + |comment| + 2 <= 4096
    && IsBase64(enc) && Decode(enc).Some? && 16 <= |Decode(enc).value| <= 2048
  }

  ghost predicate NoSpace(s: string) {
    s != "" && forall i :: 0 <= i < |s| ==> !JsSpace(s[i]) && !PySpace(s[i])
  }

  /** A generated key line is accepted by the browser's validator, as one key, and by the
      API's validator, exactly when it fits both size limits: 4096 characters for the line
      and 2048 bytes for the blob. The key name may be any ASCII string. */
  lemma GeneratedLineAcceptedIff(e: Bytes, n: Bytes, name: string)
    requires forall i :: 0 <= i < |name| ==> name[i] < '\U{80}'
    ensures var line := PublicLine(e, n, name);
      var fits := |line| <= 4096 && |Blob(e, n)| <= 2048;
      && (ValidateSshPublicKeys(line) == Some([line]) <==> fits)
      && (ValidateSshPublicKeys(line).Some? <==> fits)
      && (BackendAccepts(line) <==> fits)
  {
    var blob, enc, comment := Blob(e, n), Encode(Blob(e, n)), Comment(name);
    BlobIsNotShort(e, n);
    EncodedIsWellShaped(blob);
    EncodedHasNoSpace(blob);
    RsaIsGoodWord();
    hide Blob, Encode, Decode, Comment, ValidateSshPublicKeys, BackendAccepts, Base64Shape, IsBase64, NoSpace, KeyLine;
    LineAccepted("ssh-rsa", enc, comment);
    ShapeMeans(enc);
    LineLength("ssh-rsa", enc, comment);
  }

  lemma BlobIsNotShort(e: Bytes, n: Bytes)
    ensures |Blob(e, n)| >= 19
  {
  }

  lemma RsaIsGoodWord()
    ensures NoSpace("ssh-rsa") && SupportedKind("ssh-rsa")
  {
  }

  lemma LineLength(kind: string, enc: string, comment: string)
    ensures |KeyLine(kind, enc, comment)| == |kind| + |enc| + |comment| + 2
  {
  }

  /** Both validators accept a line of a kind, an encoding and a comment exactly when it is
      good, whatever the kind and the encoding are. */
  lemma LineAccepted(kind: string, enc: string, comment: string)
    requires NoSpace(kind) && NoSpace(enc)
    requires comment != "" && forall i :: 0 <= i < |comment| ==> !JsSpace(comment[i])
    ensures var line := KeyLine(kind, enc, comment);
      && (ValidateSshPublicKeys(line) == Some([line]) <==> GoodLine(kind, enc, comment))
      && (ValidateSshPublicKeys(line).Some? <==> GoodLine(kind, enc, comment))
      && (BackendAccepts(line) <==> GoodLine(kind, enc, comment))
  {
    var line := KeyLine(kind, enc, comment);
    LineIsTrim(kind, enc, comment);
    LineIsKey(kind, enc, comment);
    LineIsForApi(kind, enc, comment);
    NoLineBreaks(kind, enc, comment);
    hide KeyLine, KeyAccepted, GoodLine, BackendAccepts, NoSpace, Trim, ValidateSshPublicKeys, SplitLines, NonBlank;
    OneLine(line);
    OnlyKey(line);
    ValidatedAs(line, [line]);
  }

  lemma KindsAreSupported(kind: string)
    ensures kind in KEY_TYPES <==> SupportedKind(kind)
  {
  }

  lemma LineIsKey(kind: string, enc: string, comment: string)
    requires NoSpace(kind) && NoSpace(enc)
    requires comment != "" && forall i :: 0 <= i < |comment| ==> !JsSpace(comment[i])
    ensures KeyAccepted(KeyLine(kind, enc, comment)) <==> GoodLine(kind, enc, comment)
  {
    LineWords(kind, enc, comment, JsSpace);
    LineIsTrim(kind, enc, comment);
    LineLength(kind, enc, comment);
    ShapeMeans(enc);
    KindsAreSupported(kind);
    hide KeyLine, Decode, Words, Base64Shape, IsBase64, Trim, NoSpace, SupportedKind;
  }

  lemma LineIsForApi(kind: string, enc: string, comment: string)
    requires NoSpace(kind) && NoSpace(enc)
    requires comment != "" && forall i :: 0 <= i < |comment| ==> !JsSpace(comment[i])
    ensures BackendAccepts(KeyLine(kind, enc, comment)) <==> GoodLine(kind, enc, comment)
  {
    LineWords(kind, enc, comment, PySpace);
    NoLineBreaks(kind, enc, comment);
    LineLength(kind, enc, comment);
    ShapeMeans(enc);
    KindsAreSupported(kind);
    hide KeyLine, Decode, Words, Base64Shape, IsBase64, Trim, NoSpace, SupportedKind;
  }

  lemma LineIsTrim(kind: string, enc: string, comment: string)
    requires NoSpace(kind) && comment != "" && forall i :: 0 <= i < |comment| ==> !JsSpace(comment[i])
    ensures var line := KeyLine(kind, enc, comment);
      line != "" && Trim(line, JsSpace) == line
  {
    var line := KeyLine(kind, enc, comment);
    assert line[0] == kind[0] && line[|line| - 1] == comment[|comment| - 1];
    TrimNothing(line, JsSpace);
  }

  lemma ValidatedAs(value: string, keys: seq<string>)
    requires NonBlank(SplitLines(value)) == keys
    ensures ValidateSshPublicKeys(value)
            == if 1 <= |keys| <= 8 && forall i :: 0 <= i < |keys| ==> KeyAccepted(keys[i]) then Some(keys) else None
  {
    hide KeyAccepted, NonBlank, SplitLines;
  }

  lemma OnlyKey(line: string)
    requires line != "" && Trim(line, JsSpace) == line
    ensures NonBlank([line]) == [line]
  {
    assert [line][1..] == [];
  }

  lemma NoLineBreaks(kind: string, enc: string, comment: string)
    requires forall i :: 0 <= i < |kind| ==> !JsSpace(kind[i])
    requires forall i :: 0 <= i < |enc| ==> !JsSpace(enc[i])
    requires forall i :: 0 <= i < |comment| ==> !JsSpace(comment[i])
    ensures var line := KeyLine(kind, enc, comment);
      '\n' !in line && '\r' !in line
  {
  }

  /** From JSON Web Key to peer: the second word of a generated line, decoded and read as SSH
      reads it, is the key whose exponent and modulus the browser exported. */
  lemma PrintedLineCarriesTheKey(e: Bytes, n: Bytes, name: string)
    requires |e| < 0xFFFF_FFFF && |n| < 0xFFFF_FFFF
    requires forall i :: 0 <= i < |name| ==> name[i] < '\U{80}'
    ensures DecodeBase64Url(EncodeBase64Url(e)) == Some(e) && DecodeBase64Url(EncodeBase64Url(n)) == Some(n)
    ensures var words := Words(Trim(PublicLine(e, n, name), JsSpace), JsSpace);
      && |words| >= 2 && words[0] == "ssh-rsa" && Decode(words[1]).Some?
      && PublicLine(e, n, name) == KeyLine("ssh-rsa", words[1], Comment(name))
      && ReadRsaKey(Decode(words[1]).value) == Some(RsaKey(KEY_TYPE, Value(e), Value(n)))
  {
    Base64UrlRoundTrip(e);
    Base64UrlRoundTrip(n);
    var blob, enc, comment := Blob(e, n), Encode(Blob(e, n)), Comment(name);
    BlobIsNotShort(e, n);
    EncodedIsWellShaped(blob);
    EncodedHasNoSpace(blob);
    RsaIsGoodWord();
    BlobRoundTrip(e, n);
    hide Blob, Encode, Decode, Words, Trim, ReadRsaKey, Base64Shape, DecodeBase64Url, EncodeBase64Url, KeyLine;
    LineWords("ssh-rsa", enc, comment, JsSpace);
  }

  // ----- the comment ------------------------------------------------------------------

  /** The words with a hyphen between any two. */
  function Joined(words: seq<string>): string {
    if words == [] then "" else if |words| == 1 then words[0] else words[0] + "-" + Joined(words[1..])
  }

  lemma SplitOffWord(u: string)
    requires u != "" && !JsSpace(u[0])
    ensures var w := FirstWord(u, JsSpace);
      w != "" && Words(u, JsSpace) == [w] + Words(u[|w|..], JsSpace)
  {
    assert DropSpaces(u, JsSpace) == u;
  }

  lemma {:induction false} HyphenateWord(w: string, rest: string)
    requires forall i :: 0 <= i < |w| ==> !JsSpace(w[i])
    ensures Hyphenate(w + rest) == w + Hyphenate(rest)
  {
    if w == "" {
      assert w + rest == rest;
    } else {
      assert (w + rest)[1..] == w[1..] + rest;
      HyphenateWord(w[1..], rest);
    }
  }

  /** Dropping leading white space leaves the end. */
  lemma {:induction false} DropKeepsEnd(s: string)
    requires s != "" && !JsSpace(s[|s| - 1])
    ensures var t := DropSpaces(s, JsSpace);
      t != "" && t[|t| - 1] == s[|s| - 1] && !JsSpace(t[0]) && Words(t, JsSpace) == Words(s, JsSpace)
  {
    if JsSpace(s[0]) {
      DropKeepsEnd(s[1..]);
      SpaceIsSkipped(s, JsSpace);
    }
  }

  /** What follows the first word: nothing, or white space and more words. */
  lemma AfterFirstWord(u: string) returns (w: string, rest: string, next: string)
    requires u != "" && !JsSpace(u[0]) && !JsSpace(u[|u| - 1])
    ensures w != "" && u == w + rest && Hyphenate(u) == w + Hyphenate(rest)
    ensures Words(u, JsSpace) == [w] + Words(rest, JsSpace)
    ensures rest != "" ==>
      && next != "" && |next| < |u| && !JsSpace(next[0]) && !JsSpace(next[|next| - 1])
      && Words(rest, JsSpace) == Words(next, JsSpace) && Hyphenate(rest) == "-" + Hyphenate(next)
  {
    w := FirstWord(u, JsSpace);
    rest := u[|w|..];
    SplitOffWord(u);
    HyphenateWord(w, rest);
    assert u == w + rest;
    if rest != "" {
      next := DropSpaces(rest[1..], JsSpace);
      assert rest[|rest| - 1] == u[|u| - 1];
      assert rest[1..] != "" && rest[1..][|rest| - 2] == u[|u| - 1];
      DropKeepsEnd(rest[1..]);
      SpaceIsSkipped(rest, JsSpace);
    } else {
      next := "";
    }
  }

  lemma {:induction false} HyphenateJoins(u: string)
    requires u != "" && !JsSpace(u[0]) && !JsSpace(u[|u| - 1])
    ensures Words(u, JsSpace) != [] && Hyphenate(u) == Joined(Words(u, JsSpace))
    decreases |u|
  {
    var w, rest, next := AfterFirstWord(u);
    if rest != "" {
      HyphenateJoins(next);
      hide Words, Hyphenate;
      var ws := Words(rest, JsSpace);
      assert ([w] + ws)[1..] == ws;
      assert w + ("-" + Joined(ws)) == w + "-" + Joined(ws);
    } else {
      assert Words("", JsSpace) == [] && Hyphenate("") == "";
      assert w + "" == w;
    }
  }

  /** White space at the end makes no word. */
  lemma {:induction false} LastSpaceIsNoWord(s: string)
    requires s != "" && JsSpace(s[|s| - 1])
    ensures Words(s[..|s| - 1], JsSpace) == Words(s, JsSpace)
    decreases |s|
  {
    var n := |s| - 1;
    if JsSpace(s[0]) {
      SpaceIsSkipped(s, JsSpace);
      if n > 0 {
        SpaceIsSkipped(s[..n], JsSpace);
        assert s[..n][1..] == s[1..][..n - 1];
        LastSpaceIsNoWord(s[1..]);
      }
    } else {
      var w := FirstWord(s, JsSpace);
      assert forall i :: 0 <= i < |w| ==> s[i] == w[i];
      var rest := s[|w|..];
      assert s == w + rest && s[..n] == w + rest[..|rest| - 1];
      SplitOffWord(s);
      WordComesFirst(w, rest[..|rest| - 1], JsSpace);
      LastSpaceIsNoWord(rest);
    }
  }

  lemma {:induction false} TrailingMakesNoWord(s: string)
    ensures Words(DropTrailing(s, JsSpace), JsSpace) == Words(s, JsSpace)
    ensures var t := DropTrailing(s, JsSpace); t == s[..|t|] && (t != "" ==> !JsSpace(t[|t| - 1]))
  {
    if s != "" && JsSpace(s[|s| - 1]) {
      LastSpaceIsNoWord(s);
      TrailingMakesNoWord(s[..|s| - 1]);
    }
  }

  lemma {:induction false} LeadingMakesNoWord(s: string)
    ensures Words(DropSpaces(s, JsSpace), JsSpace) == Words(s, JsSpace)
  {
    if s != "" && JsSpace(s[0]) {
      SpaceIsSkipped(s, JsSpace);
      LeadingMakesNoWord(s[1..]);
    }
  }

  /** The comment is the words of the key name joined by hyphens, and `pvemaster` for a name
      without any. */
  lemma CommentIsTheName(name: string)
    ensures Comment(name)
            == if Words(name, JsSpace) == [] then "pvemaster" else Joined(Words(name, JsSpace))
  {
    var t := DropSpaces(name, JsSpace);
    var u := DropTrailing(t, JsSpace);
    LeadingMakesNoWord(name);
    TrailingMakesNoWord(t);
    if u != "" {
      assert u[0] == t[0];
      HyphenateJoins(u);
    }
  }

  // ----- several keys -----------------------------------------------------------------

  /** One line, with text, and no white space around it. */
  predicate IsLine(key: string) {
    '\n' !in key && key != "" && Trim(key, JsSpace) == key
  }

  function Lines(keys: seq<string>): string {
    if keys == [] then "" else if |keys| == 1 then keys[0] else keys[0] + "\n" + Lines(keys[1..])
  }

  lemma {:induction false} FirstLine(a: string, b: string)
    requires '\n' !in a
    ensures SplitLines(a + "\n" + b) == [a] + SplitLines(b)
  {
    var s := a + "\n" + b;
    if a == "" {
      assert s[1..] == b;
    } else {
      assert a[0] != '\n' && s[0] == a[0];
      assert s[1..] == a[1..] + "\n" + b;
      FirstLine(a[1..], b);
      assert [a[0]] + a[1..] == a;
    }
  }

  lemma {:induction false} LinesSplit(keys: seq<string>)
    requires keys != [] && forall i :: 0 <= i < |keys| ==> IsLine(keys[i])
    ensures SplitLines(Lines(keys)) == keys && NonBlank(keys) == keys
  {
    if |keys| == 1 {
      OneLine(keys[0]);
      assert keys[1..] == [];
    } else {
      LinesSplit(keys[1..]);
      FirstLine(keys[0], Lines(keys[1..]));
    }
    assert keys == [keys[0]] + keys[1..];
  }

  /** The browser takes one to eight keys, one a line, exactly when it takes each of them. */
  lemma EightKeysAtMost(keys: seq<string>)
    requires forall i :: 0 <= i < |keys| ==> IsLine(keys[i])
    ensures ValidateSshPublicKeys(Lines(keys))
            == if 1 <= |keys| <= 8 && forall i :: 0 <= i < |keys| ==> ValidateSshPublicKeys(keys[i]) == Some([keys[i]])
               then Some(keys) else None
  {
    hide KeyAccepted, SplitLines, NonBlank, ValidateSshPublicKeys, Lines, Trim;
    if keys == [] {
      NoKeys();
    } else {
      LinesSplit(keys);
      ValidatedAs(Lines(keys), keys);
    }
    forall i | 0 <= i < |keys|
      ensures ValidateSshPublicKeys(keys[i]) == Some([keys[i]]) <==> KeyAccepted(keys[i])
    {
      AloneAccepted(keys[i]);
    }
  }

  lemma NoKeys()
    ensures ValidateSshPublicKeys(Lines([])) == None
  {
    assert SplitLines("") == [""];
    assert [""][1..] == [];
    assert NonBlank([""]) == [];
    ValidatedAs("", []);
  }

  lemma AloneAccepted(key: string)
    requires IsLine(key)
    ensures ValidateSshPublicKeys(key) == Some([key]) <==> KeyAccepted(key)
  {
    OneLine(key);
    OnlyKey(key);
    ValidatedAs(key, [key]);
    hide KeyAccepted, SplitLines, NonBlank, ValidateSshPublicKeys, Trim;
  }
}
