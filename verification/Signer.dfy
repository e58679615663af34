/**
  Webhook signatures: printing and parsing the X-Webhook-Signature header, signing and
  verifying. The keyed hash is a parameter; characters stand for bytes.
 */
module Signer {
  import opened Wrappers
  import opened GoInt
  import opened Decimal

  type Byte = x: int | 0 <= x < 256

  datatype Error = EmptySecret | InvalidSignature | TimestampExpired | MalformedHeader

  /** The version tags of SHA-256, SHA-384, SHA-512 and SM3. */
  const VERSIONS := {"v1", "v384", "v512", "sm3"}

  /** `mac(secret, content)` is the HMAC digest. */
  datatype Signer = Signer(version: string, mac: (string, string) -> seq<Byte>) {
    /** A digest is never empty. */
    ghost predicate Valid() {
      version in VERSIONS && forall secret, content :: mac(secret, content) != []
    }
  }

  datatype Signature = Signature(timestamp: int, signature: string, header: string)

  // ---------- printing ----------

  function HexDigit(d: nat): (c: char)
    requires d < 16
    ensures c != ',' && c != '='
  {
    if d < 10 then '0' + d as char else 'a' + (d - 10) as char
  }

  function Hex(bytes: seq<Byte>): (s: string)
    ensures |s| == 2 * |bytes|
    ensures ',' !in s
  {
    if bytes == [] then "" else [HexDigit(bytes[0] / 16), HexDigit(bytes[0] % 16)] + Hex(bytes[1..])
  }

  function Header(ts: int, version: string, sig: string): string {
    "t=" + FormatInt(ts) + "," + (version + "=" + sig)
  }

  /** The digest of "<timestamp>.<payload>", in hex. */
  function Digest(s: Signer, payload: string, secret: string, ts: int): string {
    Hex(s.mac(secret, FormatInt(ts) + "." + payload))
  }

  /** Every byte is two lower-case hex digits, the high half first. */
  lemma {:induction false} HexDigits(bytes: seq<Byte>, i: nat)
    requires i < |bytes|
    ensures 2 * i + 1 < |Hex(bytes)|
    ensures Hex(bytes)[2 * i] == "0123456789abcdef"[bytes[i] / 16] && Hex(bytes)[2 * i + 1] == "0123456789abcdef"[bytes[i] % 16]
  {
    if i == 0 {
      DigitText(bytes[0] / 16);
      DigitText(bytes[0] % 16);
    } else {
      HexDigits(bytes[1..], i - 1);
      assert Hex(bytes)[2..] == Hex(bytes[1..]);
    }
  }

  lemma DigitText(d: nat)
    requires d < 16
    ensures HexDigit(d) == "0123456789abcdef"[d]
  {
  }

  // ---------- parsing ----------

  /** `strings.Split` at a one-byte separator. */
  function Split(s: string, sep: char): (parts: seq<string>)
    ensures parts != []
  {
    if s == "" then [""]
    else
      var rest := Split(s[1..], sep);
      if s[0] == sep then [""] + rest else [[s[0]] + rest[0]] + rest[1..]
  }

  /** `strings.SplitN(part, "=", 2)`: the key and the value, or None without a separator. */
  function Cut(s: string, sep: char): Option<(string, string)> {
    if s == "" then None
    else if s[0] == sep then Some(("", s[1..]))
    else
      match Cut(s[1..], sep)
      case None => None
      case Some((k, v)) => Some(([s[0]] + k, v))
  }

  /** The last timestamp and signature texts among the parts; None when a part has no "=". */
  function Fields(parts: seq<string>, version: string, n: nat): Option<(string, string)>
    requires n <= |parts|
  {
    if n == 0 then Some(("", ""))
    else
      match Fields(parts, version, n - 1)
      case None => None
      case Some((ts, sig)) =>
        match Cut(parts[n - 1], '=')
        case None => None
        case Some((k, v)) => if k == "t" then Some((v, sig)) else if k == version then Some((ts, v)) else Some((ts, sig))
  }

  function Parsed(header: string, version: string): Result<(int, string), Error> {
    var parts := Split(header, ',');
    match Fields(parts, version, |parts|)
    case None => Err(MalformedHeader)
    case Some((tsText, sig)) =>
      if tsText == "" || sig == "" then Err(MalformedHeader)
      else
        match ParseInt(tsText)
        case Number(ts) => Ok((ts, sig))
        case _ => Err(MalformedHeader)
  }

  function JoinWith(parts: seq<string>, sep: char): string
    requires parts != []
  {
    if |parts| == 1 then parts[0] else parts[0] + [sep] + JoinWith(parts[1..], sep)
  }

  /** The parts of a text are those without separators that, with separators between them, make it up. */
  lemma {:induction false} SplitIs(s: string, sep: char)
    ensures JoinWith(Split(s, sep), sep) == s
    ensures forall i :: 0 <= i < |Split(s, sep)| ==> sep !in Split(s, sep)[i]
  {
    if s != "" {
      SplitIs(s[1..], sep);
      var rest := Split(s[1..], sep);
      if s[0] == sep {
        assert ([""] + rest)[1..] == rest;
        assert JoinWith([""] + rest, sep) == "" + [sep] + JoinWith(rest, sep);
      } else {
        assert Split(s, sep)[1..] == rest[1..];
        if |rest| > 1 { assert JoinWith(rest, sep) == rest[0] + [sep] + JoinWith(rest[1..], sep); }
        assert JoinWith(Split(s, sep), sep) == [s[0]] + JoinWith(rest, sep);
      }
    }
  }

  /** The key is what comes before the first separator. */
  lemma {:induction false} CutIs(s: string, sep: char)
    ensures Cut(s, sep) == None <==> sep !in s
    ensures Cut(s, sep).Some? ==> var (k, v) := Cut(s, sep).value; sep !in k && s == k + [sep] + v
  {
    if s != "" && s[0] != sep {
      CutIs(s[1..], sep);
    }
  }

  predicate HasKey(part: string, key: string) {
    key + "=" <= part
  }

  /** `v` is what follows `key=` in the last of the first n parts that start so, or "" if none does. */
  ghost predicate IsField(parts: seq<string>, n: nat, key: string, v: string)
    requires n <= |parts|
  {
    || (v == "" && forall i :: 0 <= i < n ==> !HasKey(parts[i], key))
    || exists i :: 0 <= i < n && parts[i] == key + "=" + v && forall j :: i < j < n ==> !HasKey(parts[j], key)
  }

  lemma KeyOfPart(part: string, k: string, v: string, key: string)
    requires part == k + "=" + v && '=' !in k && '=' !in key
    ensures HasKey(part, key) <==> k == key
  {
    if HasKey(part, key) {
      assert forall i :: 0 <= i < |k| ==> part[i] == k[i] && part[i] != '=';
      assert forall i :: 0 <= i < |key| ==> part[i] == key[i] && part[i] != '=';
      assert part[|key|] == '=' && part[|k|] == '=';
      assert |k| == |key| && k == part[..|k|] && key == part[..|key|];
    }
  }

  lemma FieldGoesOn(parts: seq<string>, n: nat, key: string, v: string)
    requires n < |parts| && IsField(parts, n, key, v) && !HasKey(parts[n], key)
    ensures IsField(parts, n + 1, key, v)
  {
  }

  lemma FieldFound(parts: seq<string>, n: nat, key: string, v: string)
    requires n < |parts| && parts[n] == key + "=" + v
    ensures IsField(parts, n + 1, key, v)
  {
  }

  lemma {:induction false} FieldsAre(parts: seq<string>, version: string, n: nat)
    requires n <= |parts| && version != "t" && '=' !in version
    ensures Fields(parts, version, n).None? <==> exists i :: 0 <= i < n && '=' !in parts[i]
    ensures Fields(parts, version, n).Some? ==>
      IsField(parts, n, "t", Fields(parts, version, n).value.0) && IsField(parts, n, version, Fields(parts, version, n).value.1)
  {
    hide IsField, HasKey, Cut;
    if n == 0 {
      NoFields(parts, "t");
      NoFields(parts, version);
    } else {
      FieldsAre(parts, version, n - 1);
      var before := Fields(parts, version, n - 1);
      CutIs(parts[n - 1], '=');
      if before.Some? && Cut(parts[n - 1], '=').Some? {
        var (k, v) := Cut(parts[n - 1], '=').value;
        KeyOfPart(parts[n - 1], k, v, "t");
        KeyOfPart(parts[n - 1], k, v, version);
        if k == "t" { FieldFound(parts, n - 1, "t", v); } else { FieldGoesOn(parts, n - 1, "t", before.value.0); }
        if k == version { FieldFound(parts, n - 1, version, v); } else { FieldGoesOn(parts, n - 1, version, before.value.1); }
      }
    }
  }

  lemma NoFields(parts: seq<string>, key: string)
    ensures IsField(parts, 0, key, "")
  {
  }

  /** At most one text is the field. */
  lemma FieldUnique(parts: seq<string>, key: string, v: string, w: string)
    requires IsField(parts, |parts|, key, v) && IsField(parts, |parts|, key, w)
    ensures v == w
  {
    assert forall i :: 0 <= i < |parts| && parts[i] == key + "=" + v ==> HasKey(parts[i], key);
    assert forall i :: 0 <= i < |parts| && parts[i] == key + "=" + w ==> HasKey(parts[i], key);
    if exists k :: 0 <= k < |parts| && HasKey(parts[k], key) {
      var i :| 0 <= i < |parts| && parts[i] == key + "=" + v && forall j :: i < j < |parts| ==> !HasKey(parts[j], key);
      var j :| 0 <= j < |parts| && parts[j] == key + "=" + w && forall k :: j < k < |parts| ==> !HasKey(parts[k], key);
      assert i == j;
      assert v == parts[i][|key| + 1..] && w == parts[i][|key| + 1..];
    }
  }

  /** The header has this time stamp and this signature, every part of it a key with a value. */
  ghost predicate Carries(header: string, version: string, ts: int, sig: string) {
    var parts := Split(header, ',');
    && (forall i :: 0 <= i < |parts| ==> '=' in parts[i])
    && sig != "" && IsField(parts, |parts|, version, sig)
    && exists text :: IsField(parts, |parts|, "t", text) && ParseInt(text) == Number(ts)
  }

  lemma ParsedIs(header: string, version: string)
    requires version != "t" && '=' !in version
    ensures forall ts, sig :: Parsed(header, version) == Ok((ts, sig)) <==> Carries(header, version, ts, sig)
    ensures Parsed(header, version).Err? ==> Parsed(header, version).error == MalformedHeader
  {
    hide IsField, Split, Fields, ParseInt;
    var parts := Split(header, ',');
    FieldsAre(parts, version, |parts|);
    assert ParseInt("") == SyntaxError by { NothingIsNoNumber(); }
    forall ts, sig ensures Parsed(header, version) == Ok((ts, sig)) <==> Carries(header, version, ts, sig) {
      if Carries(header, version, ts, sig) {
        var text :| IsField(parts, |parts|, "t", text) && ParseInt(text) == Number(ts);
        var (foundText, foundSig) := Fields(parts, version, |parts|).value;
        FieldUnique(parts, "t", text, foundText);
        FieldUnique(parts, version, sig, foundSig);
      }
    }
  }

  lemma NothingIsNoNumber()
    ensures ParseInt("") == SyntaxError
  {
  }

  method ParseSignatureHeader(header: string, version: string) returns (r: Result<(int, string), Error>)
    requires version in VERSIONS
    ensures r == Parsed(header, version)
    ensures forall ts, sig :: r == Ok((ts, sig)) <==> Carries(header, version, ts, sig)
    ensures r.Err? ==> r.error == MalformedHeader
  {
    ParsedIs(header, version);
    hide Carries;
    var parts := Split(header, ',');
    var tsText, sig := "", "";
    for i := 0 to |parts|
      invariant Fields(parts, version, i) == Some((tsText, sig))
    {
      var kv := Cut(parts[i], '=');
      if kv.None? {
        MissingSeparator(parts, version, i + 1, |parts|);
        return Err(MalformedHeader);
      }
      if kv.value.0 == "t" {
        tsText := kv.value.1;
      } else if kv.value.0 == version {
        sig := kv.value.1;
      }
    }
    if tsText == "" || sig == "" {
      return Err(MalformedHeader);
    }
    var ts := ParseInt(tsText);
    if !ts.Number? {
      return Err(MalformedHeader);
    }
    return Ok((ts.value, sig));
  }

  lemma {:induction false} MissingSeparator(parts: seq<string>, version: string, i: nat, n: nat)
    requires i <= n <= |parts| && Fields(parts, version, i) == None
    ensures Fields(parts, version, n) == None
  {
    if i < n {
      MissingSeparator(parts, version, i, n - 1);
    }
  }

  // ---------- printing and parsing ----------

  lemma {:induction false} SplitOne(a: string, sep: char)
    requires sep !in a
    ensures Split(a, sep) == [a]
  {
    if a != "" {
      SplitOne(a[1..], sep);
      assert [a[0]] + a[1..] == a;
    }
  }

  lemma {:induction false} SplitTwo(a: string, b: string, sep: char)
    requires sep !in a && sep !in b
    ensures Split(a + [sep] + b, sep) == [a, b]
  {
    var s := a + [sep] + b;
    if a == "" {
      assert s[1..] == b;
      SplitOne(b, sep);
    } else {
      assert s[1..] == a[1..] + [sep] + b;
      SplitTwo(a[1..], b, sep);
      assert [a[0]] + a[1..] == a;
    }
  }

  lemma {:induction false} CutAt(k: string, v: string, sep: char)
    requires sep !in k
    ensures Cut(k + [sep] + v, sep) == Some((k, v))
  {
    var s := k + [sep] + v;
    if k == "" {
      assert s[1..] == v;
    } else {
      assert s[1..] == k[1..] + [sep] + v;
      CutAt(k[1..], v, sep);
      assert [k[0]] + k[1..] == k;
    }
  }

  lemma HeaderFields(ts: int, version: string, sig: string, wanted: string)
    requires version in VERSIONS && wanted in VERSIONS && ',' !in sig
    ensures var parts := Split(Header(ts, version, sig), ',');
      Fields(parts, wanted, |parts|) == Some((FormatInt(ts), if version == wanted then sig else ""))
  {
    hide Split, FormatInt;
    FormatHasNoSeparator(ts, ',');
    var a, b := "t=" + FormatInt(ts), version + "=" + sig;
    assert Header(ts, version, sig) == a + [','] + b;
    SplitTwo(a, b, ',');
    CutAt("t", FormatInt(ts), '=');
    assert a == "t" + ['='] + FormatInt(ts);
    CutAt(version, sig, '=');
    assert b == version + ['='] + sig;
    assert Fields([a, b], wanted, 1) == Some((FormatInt(ts), ""));
  }

  /** Parsing a printed header gives back exactly the timestamp and the signature; any other version's signer finds it malformed. */
  lemma ParsePrinted(ts: int, version: string, sig: string, wanted: string)
    requires IsInt64(ts) && version in VERSIONS && wanted in VERSIONS && sig != "" && ',' !in sig
    ensures Parsed(Header(ts, version, sig), wanted) == if version == wanted then Ok((ts, sig)) else Err(MalformedHeader)
  {
    HeaderFields(ts, version, sig, wanted);
    ParseFormat(ts);
    assert FormatInt(ts) != "";
  }

  // ---------- signing ----------

  /** A header for the digest, which parses back to just that time stamp and digest. */
  method SignPayload(s: Signer, payload: string, secret: string, now: int) returns (r: Result<Signature, Error>)
    requires s.Valid() && IsInt64(now)
    ensures secret == "" ==> r == Err(EmptySecret)
    ensures secret != "" ==> r.Ok? && r.value.timestamp == now
    ensures secret != "" ==> r.value.signature == Hex(s.mac(secret, FormatInt(now) + "." + payload))
    ensures secret != "" ==> r.value.header == "t=" + FormatInt(now) + "," + (s.version + "=" + r.value.signature)
    ensures secret != "" ==> Parsed(r.value.header, s.version) == Ok((now, r.value.signature))
  {
    if secret == "" {
      return Err(EmptySecret);
    }
    var sig := Hex(s.mac(secret, FormatInt(now) + "." + payload));
    ParsePrinted(now, s.version, sig, s.version);
    return Ok(Signature(now, sig, "t=" + FormatInt(now) + "," + (s.version + "=" + sig)));
  }

  // ---------- verifying ----------

  /** Go's integer division truncates toward zero. */
  function TruncatedDiv(a: int, b: nat): int
    requires b > 0
  {
    if a >= 0 then a / b else -((-a) / b)
  }

  /** `diff := now - ts; if diff < 0 { diff = -diff }` on int64. */
  function Distance(now: int, ts: int): int {
    var diff := Wrap64(now - ts);
    if diff < 0 then Wrap64(-diff) else diff
  }

  function Age(now: int, ts: int): nat {
    if now >= ts then now - ts else ts - now
  }

  /** The distance computed is the true one exactly as long as that fits in an int64. */
  lemma DistanceExactIff(now: int, ts: int)
    requires IsInt64(now) && IsInt64(ts)
    ensures Distance(now, ts) == Age(now, ts) <==> -TWO_63 < now - ts < TWO_63
  {
  }

  /** The true age is within the tolerance, or so large that the int64 distance wraps around to a small or negative one. */
  predicate PassesAgeCheck(now: int, ts: int, seconds: int) {
    Age(now, ts) <= seconds || Age(now, ts) == TWO_63 || Age(now, ts) >= TWO_64 - seconds
  }

  /** That is what the comparison of the computed distance comes to, for any int64 time stamp. */
  lemma WithinToleranceIff(now: int, ts: int, seconds: int)
    requires IsInt64(now) && IsInt64(ts) && IsInt64(seconds)
    ensures Distance(now, ts) <= seconds <==> PassesAgeCheck(now, ts, seconds)
  {
    var diff := now - ts;
    if diff >= TWO_63 {
      assert Wrap64(diff) == diff - TWO_64;
    } else if diff < -TWO_63 {
      assert Wrap64(diff) == diff + TWO_64;
    }
  }

  /** A time stamp is young enough in whole seconds exactly if it is in nanoseconds; a tolerance below 0 but above -1 s counts as 0. */
  lemma WholeSeconds(age: nat, tolerance: int)
    ensures age <= TruncatedDiv(tolerance, SECOND) <==> age * SECOND <= tolerance || (age == 0 && tolerance + SECOND > 0)
  {
  }

  lemma ParsedStampIsInt64(header: string, version: string)
    requires Parsed(header, version).Ok?
    ensures IsInt64(Parsed(header, version).value.0)
  {
    var parts := Split(header, ',');
    ParsesToInt64(Fields(parts, version, |parts|).value.0);
  }

  /**
    Accepts exactly the headers that parse to a time stamp that passes the age check and to the hex digest of
    that time stamp and the payload. A header rejected for its age parses; one rejected for its signature
    passes the age check too.
   */
  method VerifySignature(s: Signer, payload: string, secret: string, header: string, tolerance: int, now: int)
      returns (err: Option<Error>)
    requires s.version in VERSIONS && IsInt64(now) && IsInt64(tolerance)
    ensures secret == "" <==> err == Some(EmptySecret)
    ensures secret != "" ==>
      var seconds, parsed := TruncatedDiv(tolerance, SECOND), Parsed(header, s.version);
      && (err.None? <==> header != "" && parsed.Ok? && PassesAgeCheck(now, parsed.value.0, seconds)
                         && parsed.value.1 == Hex(s.mac(secret, FormatInt(parsed.value.0) + "." + payload)))
      && (err == Some(TimestampExpired) <==> header != "" && parsed.Ok? && !PassesAgeCheck(now, parsed.value.0, seconds))
      && (err == Some(MalformedHeader) <==> header != "" && parsed.Err?)
    ensures err == Verified(s, payload, secret, header, tolerance, now)
    ensures err.None? ==> exists ts: int, sig: string :: Carries(header, s.version, ts, sig) && IsGenuine(s, payload, secret, ts, sig)
  {
    hide Parsed, PassesAgeCheck, Carries, Hex, FormatInt;
    if secret == "" {
      return Some(EmptySecret);
    }
    if header == "" {
      return Some(InvalidSignature);
    }
    var parsed := ParseSignatureHeader(header, s.version);
    OnlyMalformed(header, s.version);
    if parsed.Err? {
      return Some(parsed.error);
    }
    var (ts, sig) := parsed.value;
    ParsedStampIsInt64(header, s.version);
    WithinToleranceIff(now, ts, TruncatedDiv(tolerance, SECOND));
    var diff := Wrap64(now - ts);
    if diff < 0 {
      diff := Wrap64(-diff);
    }
    if diff > TruncatedDiv(tolerance, SECOND) {
      return Some(TimestampExpired);
    }
    var expected := DigestOf(s, payload, secret, ts);
    if expected != sig {
      return Some(InvalidSignature);
    }
    return None;
  }

  /** The signature is the hex text of the keyed digest of the time stamp, a dot and the payload. */
  ghost predicate IsGenuine(s: Signer, payload: string, secret: string, ts: int, sig: string) {
    sig == Hex(s.mac(secret, FormatInt(ts) + "." + payload))
  }

  lemma OnlyMalformed(header: string, version: string)
    ensures Parsed(header, version).Err? ==> Parsed(header, version).error == MalformedHeader
  {
  }

  method DigestOf(s: Signer, payload: string, secret: string, ts: int) returns (sig: string)
    ensures sig == Digest(s, payload, secret, ts)
  {
    return Hex(s.mac(secret, FormatInt(ts) + "." + payload));
  }

  /** None when the signature is accepted. */
  function Verified(s: Signer, payload: string, secret: string, header: string, tolerance: int, now: int): Option<Error> {
    if secret == "" then Some(EmptySecret)
    else if header == "" then Some(InvalidSignature)
    else
      match Parsed(header, s.version)
      case Err(e) => Some(e)
      case Ok((ts, sig)) =>
        if Distance(now, ts) > TruncatedDiv(tolerance, SECOND) then Some(TimestampExpired)
        else if Digest(s, payload, secret, ts) != sig then Some(InvalidSignature)
        else None
  }

  /** Different digests have different texts. */
  lemma {:induction false} HexInjective(a: seq<Byte>, b: seq<Byte>)
    requires Hex(a) == Hex(b)
    ensures a == b
  {
    assert |a| == |b|;
    if a != [] {
      assert Hex(a)[..2] == Hex(b)[..2] && Hex(a)[2..] == Hex(b)[2..];
      assert Hex(a)[0] == Hex(b)[0] && Hex(a)[1] == Hex(b)[1];
      HexInjective(a[1..], b[1..]);
    }
  }

  /**
    What one signer signs at `ts` for `payload`, itself judges at `now` for a `received` payload: expired
    exactly when the two times differ by more than the tolerance, else accepted exactly when
    the two payloads have the same digest, as they have when they are equal. A signer of another version
    finds it malformed.
   */
  lemma SignThenVerify(s: Signer, other: Signer, payload: string, received: string, secret: string, ts: int, tolerance: int, now: int)
    requires s.Valid() && other.Valid() && secret != ""
    requires 0 <= ts < TWO_63 && 0 <= now < TWO_63
    ensures var header := Header(ts, s.version, Digest(s, payload, secret, ts));
      var stamp := FormatInt(ts) + ".";
      && Verified(s, received, secret, header, tolerance, now) ==
           (if Age(now, ts) > TruncatedDiv(tolerance, SECOND) then Some(TimestampExpired)
            else if s.mac(secret, stamp + received) == s.mac(secret, stamp + payload) then None
            else Some(InvalidSignature))
      && (other.version != s.version ==> Verified(other, received, secret, header, tolerance, now) == Some(MalformedHeader))
  {
    var sig := Digest(s, payload, secret, ts);
    assert sig != "";
    ParsePrinted(ts, s.version, sig, s.version);
    ParsePrinted(ts, s.version, sig, other.version);
    DistanceExactIff(now, ts);
    assert Header(ts, s.version, sig)[0] == 't';
    if Digest(s, received, secret, ts) == sig {
      HexInjective(s.mac(secret, FormatInt(ts) + "." + received), s.mac(secret, FormatInt(ts) + "." + payload));
    }
  }
}
