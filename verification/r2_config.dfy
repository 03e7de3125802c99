/** Where audio and image files are fetched from (`r2-config.js`): the
    CDN when one is configured, otherwise local paths. File names are
    escaped as `encodeURIComponent` does. */
module R2Config {
  import opened Text

  // ---------------------------------------------------------------------
  // encodeURIComponent

  /** Characters `encodeURIComponent` leaves alone. */
  predicate Unreserved(c: char) {
    IsLetter(c) || IsDigit(c) || c in "-_.!~*'()"
  }

  const HexDigits: string := "0123456789ABCDEF"

  /** `%XX` with upper-case hex digits. */
  function PercentByte(b: nat): (r: string)
    requires b < 256
    ensures |r| == 3 && r[0] == '%' && r[1] in HexDigits && r[2] in HexDigits
  {
    ['%', HexDigits[b / 16], HexDigits[b % 16]]
  }

  /** The UTF-8 bytes of a Unicode scalar value. */
  function Utf8(cp: nat): (r: seq<nat>)
    requires cp < 0x11_0000
    ensures 1 <= |r| <= 4 && forall i :: 0 <= i < |r| ==> r[i] < 256
    ensures cp < 0x80 <==> |r| == 1
    ensures cp < 0x80 ==> r == [cp]
  {
    if cp < 0x80 then [cp]
    else if cp < 0x800 then [0xC0 + cp / 64, 0x80 + cp % 64]
    else if cp < 0x1_0000 then [0xE0 + cp / 4096, 0x80 + (cp / 64) % 64, 0x80 + cp % 64]
    else [0xF0 + cp / 262144, 0x80 + (cp / 4096) % 64, 0x80 + (cp / 64) % 64, 0x80 + cp % 64]
  }

  function PercentBytes(bs: seq<nat>): (r: string)
    requires forall i :: 0 <= i < |bs| ==> bs[i] < 256
    ensures |r| == 3 * |bs|
    ensures forall i :: 0 <= i < |r| ==> r[i] == '%' || r[i] in HexDigits
    decreases |bs|
  {
    if |bs| == 0 then "" else PercentByte(bs[0]) + PercentBytes(bs[1..])
  }

  function EncodeChar(c: char): (r: string)
    ensures Unreserved(c) ==> r == [c]
    ensures !Unreserved(c) ==> |r| >= 3 && r[0] == '%'
    ensures forall i :: 0 <= i < |r| ==> Unreserved(r[i]) || r[i] == '%'
  {
    if Unreserved(c) then [c]
    else
      var r := PercentBytes(Utf8(c as nat));
      assert r[..3] == PercentByte(Utf8(c as nat)[0]);
      r
  }

  /** `encodeURIComponent` on a string of Unicode scalar values. */
  function Encode(s: string): (r: string)
    ensures |r| >= |s|
    ensures forall i :: 0 <= i < |r| ==> Unreserved(r[i]) || r[i] == '%'
    decreases |s|
  {
    if |s| == 0 then "" else EncodeChar(s[0]) + Encode(s[1..])
  }

  /** Escaping leaves a string of unreserved characters as it is and never
      produces a `/`, so escaped pieces joined by `/` split back into the
      same pieces. */
  lemma {:induction false} EncodeUnreserved(s: string)
    requires forall i :: 0 <= i < |s| ==> Unreserved(s[i])
    ensures Encode(s) == s
    decreases |s|
  {
    if |s| > 0 {
      EncodeUnreserved(s[1..]);
    }
  }

  lemma EncodeHasNoSlash(s: string)
    ensures '/' !in Encode(s)
  {
  }

  function HexValue(c: char): nat {
    if '0' <= c <= '9' then (c as int - '0' as int) as nat
    else if 'A' <= c <= 'F' then (c as int - 'A' as int + 10) as nat
    else 0
  }

  /** `decodeURIComponent` for escapes of single bytes below 0x80. */
  function DecodeAscii(s: string): string
    decreases |s|
  {
    if |s| >= 3 && s[0] == '%' then [(HexValue(s[1]) * 16 + HexValue(s[2])) as char] + DecodeAscii(s[3..])
    else if |s| == 0 then ""
    else [s[0]] + DecodeAscii(s[1..])
  }

  lemma HexRoundTrip(b: nat)
    requires b < 16
    ensures HexValue(HexDigits[b]) == b
  {
  }

  /** Escaping ASCII text can be undone: different ASCII file names never
      collide once escaped. */
  lemma {:induction false} DecodeEncodeAscii(s: string)
    requires forall i :: 0 <= i < |s| ==> s[i] as int < 0x80
    ensures DecodeAscii(Encode(s)) == s
    decreases |s|
  {
    if |s| > 0 {
      DecodeEncodeAscii(s[1..]);
      assert Encode(s) == EncodeChar(s[0]) + Encode(s[1..]);
      DecodeEncodedChar(s[0], Encode(s[1..]));
      assert s == [s[0]] + s[1..];
    }
  }

  /** One escaped ASCII character decodes back to itself, whatever text
      follows it. */
  lemma DecodeEncodedChar(c: char, rest: string)
    requires c as int < 0x80
    ensures DecodeAscii(EncodeChar(c) + rest) == [c] + DecodeAscii(rest)
  {
    var e := EncodeChar(c);
    if Unreserved(c) {
      assert (e + rest)[1..] == rest;
    } else {
      var b := c as nat;
      HexRoundTrip(b / 16);
      HexRoundTrip(b % 16);
      assert e == PercentByte(b);
      assert (e + rest)[3..] == rest;
      assert (b / 16 * 16 + b % 16) as char == c;
    }
  }

  // ---------------------------------------------------------------------
  // URLs

  datatype Config = Config(cdnBaseUrl: string, enableLocalFallback: bool)

  /** The repository's setting: a public bucket address and no local
      fallback. */
  const Default: Config := Config("https://pub-b3f1546eda5148c98fd9298b9d66d7f6.r2.dev", false)

  const AudioPath: string := "audio"
  const ImagesPath: string := "images"
  const LocalAudioPath: string := "/audio/"
  const LocalImagesPath: string := "./images/"
  const Placeholder: string := "YOUR_R2_CDN_DOMAIN_HERE"

  /** A development host: `localhost`, `127.0.0.1`, an empty host name or
      a 192.168 address. */
  predicate IsLocalHost(hostname: string) {
    hostname in ["localhost", "127.0.0.1", ""] || StartsWith(hostname, "192.168.")
  }

  /** `shouldUseR2`: the CDN is used when its address is configured (set
      and not the placeholder), unless this is a development host and the
      local fallback is on. */
  predicate ShouldUseR2(config: Config, hostname: string) {
    config.cdnBaseUrl != "" && !Contains(config.cdnBaseUrl, Placeholder)
    && !(IsLocalHost(hostname) && config.enableLocalFallback)
  }

  /** With the local fallback off (as in the repository's setting) the
      host never matters: any address that is set and does not hold the
      placeholder sends every host to the CDN. With it on, development
      hosts always use local files. */
  lemma FallbackDecidesLocalHosts(config: Config, hostname: string)
    ensures !config.enableLocalFallback && config.cdnBaseUrl != "" && 'Y' !in config.cdnBaseUrl ==>
              ShouldUseR2(config, hostname)
    ensures config.enableLocalFallback && IsLocalHost(hostname) ==> !ShouldUseR2(config, hostname)
    ensures !Default.enableLocalFallback && Default.cdnBaseUrl != ""
  {
    if config.cdnBaseUrl != "" && 'Y' !in config.cdnBaseUrl {
      NotContainedWithoutFirstChar(config.cdnBaseUrl, Placeholder);
    }
  }

  /** A string without the first character of `sub` does not contain it. */
  lemma {:induction false} NotContainedWithoutFirstChar(s: string, sub: string)
    requires |sub| > 0 && sub[0] !in s
    ensures !Contains(s, sub)
    decreases |s|
  {
    if |s| > 0 {
      assert s[1..] <= s[1..];
      assert forall c :: c in s[1..] ==> c in s;
      NotContainedWithoutFirstChar(s[1..], sub);
      assert !StartsWith(s, sub) by {
        if |sub| <= |s| {
          assert s[..|sub|][0] == s[0];
        }
      }
    }
  }

  /** `getAudioUrl`. */
  function AudioUrl(config: Config, hostname: string, fileName: string): (r: string)
    ensures ShouldUseR2(config, hostname) ==>
              r == config.cdnBaseUrl + "/" + AudioPath + "/" + Encode(fileName)
    ensures !ShouldUseR2(config, hostname) ==> r == LocalAudioPath + fileName
  {
    if ShouldUseR2(config, hostname) then config.cdnBaseUrl + "/" + AudioPath + "/" + Encode(fileName)
    else LocalAudioPath + fileName
  }

  function EncodeParts(parts: seq<string>): (r: seq<string>)
    ensures |r| == |parts| && forall i :: 0 <= i < |parts| ==> r[i] == Encode(parts[i])
  {
    seq(|parts|, i requires 0 <= i < |parts| => Encode(parts[i]))
  }

  /** `getImageUrl`: on the CDN each `/`-separated piece of the path is
      escaped on its own. */
  function ImageUrl(config: Config, hostname: string, filePath: string): (r: string)
  {
    if ShouldUseR2(config, hostname) then
      config.cdnBaseUrl + "/" + ImagesPath + "/" + Join(EncodeParts(Split(filePath, '/')), "/")
    else LocalImagesPath + filePath
  }

  /** On the CDN the image URL keeps the path's directory structure: its
      tail splits on `/` into exactly the escaped pieces of the path, one
      per piece. Locally the path is used as given. */
  lemma ImageUrlKeepsDirectories(config: Config, hostname: string, filePath: string)
    ensures var r := ImageUrl(config, hostname, filePath);
            var prefix := config.cdnBaseUrl + "/" + ImagesPath + "/";
            if ShouldUseR2(config, hostname) then
              StartsWith(r, prefix) && Split(r[|prefix|..], '/') == EncodeParts(Split(filePath, '/'))
            else r == LocalImagesPath + filePath
  {
    if ShouldUseR2(config, hostname) {
      var parts := EncodeParts(Split(filePath, '/'));
      forall i | 0 <= i < |parts| ensures '/' !in parts[i] {
        EncodeHasNoSlash(Split(filePath, '/')[i]);
      }
      SplitJoin(parts, '/');
      var prefix := config.cdnBaseUrl + "/" + ImagesPath + "/";
      var r := ImageUrl(config, hostname, filePath);
      assert r == prefix + Join(parts, "/");
      assert r[|prefix|..] == Join(parts, "/");
    }
  }

  /** A file name with no character to escape goes into the audio URL as
      it is. */
  lemma PlainAudioName(config: Config, hostname: string, fileName: string)
    requires ShouldUseR2(config, hostname)
    requires forall i :: 0 <= i < |fileName| ==> Unreserved(fileName[i])
    ensures AudioUrl(config, hostname, fileName) == config.cdnBaseUrl + "/audio/" + fileName
  {
    EncodeUnreserved(fileName);
  }
}
