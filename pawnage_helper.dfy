/**
 * PawnageHelper.GetPawnageInfo: the local half of the k-anonymity range
 * query. The password's SHA-1 digest is rendered in hexadecimal; only its
 * first five digits go into the request URL, and the response lines are
 * searched for the remaining 35 digits, ignoring case.
 */
module PawnageHelper {
  import opened Wrappers
  import opened Text
  import opened ByteArrayHelper
  import opened WebHelper

  /** A SHA-1 digest: 20 bytes. */
  type Digest = d: seq<byte> | |d| == 20 witness seq(20, _ => 0 as byte)

  /**
   * What the lookup takes from the runtime: UTF-8 encoding, SHA-1 and
   * Environment.NewLine.
   */
  datatype Platform = Platform(
    utf8: string -> seq<byte>,
    sha1: seq<byte> -> Digest,
    newLine: string)

  /** The endpoint the prefix is appended to. */
  const RangeApi := "https://api.pwnedpasswords.com/range/"

  /** hexString.Substring(0, 5): the first five characters. */
  function Prefix(hex: string): (prefix: string)
    requires |hex| >= 5
    ensures |prefix| == 5 && prefix <= hex
  {
    hex[..5]
  }

  /** hexString.Substring(5): what follows the first five characters. */
  function Suffix(hex: string): (suffix: string)
    requires |hex| >= 5
    ensures |suffix| == |hex| - 5 && hex[..5] + suffix == hex
  {
    hex[5..]
  }

  /** The request URL: the fixed endpoint followed by the prefix. */
  function RangeUrl(hex: string): (url: string)
    requires |hex| >= 5
    ensures |url| == |RangeApi| + 5
    ensures url[..|RangeApi|] == RangeApi && url[|RangeApi|..] == Prefix(hex)
  {
    RangeApi + Prefix(hex)
  }

  /** `suffix` occurs in `line` at index `j` when letters are compared without regard to ASCII case. */
  predicate OccursIgnoringCaseAt(line: string, suffix: string, j: int)
  {
    0 <= j && j + |suffix| <= |line|
    && forall k :: 0 <= k < |suffix| ==> LowerChar(line[j + k]) == LowerChar(suffix[k])
  }

  lemma LowerOccursIff(line: string, suffix: string)
    ensures forall j :: OccursAt(Lower(line), Lower(suffix), j) <==> OccursIgnoringCaseAt(line, suffix, j)
  {
    forall j | 0 <= j && j + |suffix| <= |line|
      ensures OccursAt(Lower(line), Lower(suffix), j) <==> OccursIgnoringCaseAt(line, suffix, j)
    {
      var w := Lower(line)[j..j + |suffix|];
      assert forall k :: 0 <= k < |suffix| ==> w[k] == LowerChar(line[j + k]);
    }
  }

  /** line.ToLower().Contains(suffix.ToLower()): the suffix occurs somewhere in the line, ignoring ASCII case. */
  function Matches(line: string, suffix: string): (b: bool)
    ensures b <==> exists j :: OccursIgnoringCaseAt(line, suffix, j)
  {
    LowerOccursIff(line, suffix);
    Contains(Lower(line), Lower(suffix))
  }

  /** The index of the first line at or after `i` that matches, or |lines| if none does. */
  function FindFrom(lines: seq<string>, suffix: string, i: nat): (k: nat)
    requires i <= |lines|
    ensures i <= k <= |lines|
    ensures forall j :: i <= j < k ==> !Matches(lines[j], suffix)
    ensures k < |lines| ==> Matches(lines[k], suffix)
    decreases |lines| - i
  {
    if i == |lines| then i
    else if Matches(lines[i], suffix) then i
    else FindFrom(lines, suffix, i + 1)
  }

  /** The first line that matches the suffix, or None (null) when no line does. */
  function FirstMatch(lines: seq<string>, suffix: string): (r: Option<string>)
    ensures r.Some? ==> exists k :: 0 <= k < |lines| && lines[k] == r.value && Matches(lines[k], suffix)
                                  && forall j :: 0 <= j < k ==> !Matches(lines[j], suffix)
    ensures r.None? <==> forall j :: 0 <= j < |lines| ==> !Matches(lines[j], suffix)
  {
    var k := FindFrom(lines, suffix, 0);
    if k < |lines| then Some(lines[k]) else None
  }

  /** The 40 hexadecimal digits of the password's SHA-1 digest. */
  function PasswordHex(password: string, p: Platform): (hex: string)
    ensures |hex| == 40
  {
    Hex(p.sha1(p.utf8(password)))
  }

  /**
   * What GetPawnageInfo returns for `password` when the server answers with
   * `respond`: a non-empty line of the response to the range URL that contains
   * the suffix, ignoring case, or None exactly when no line does.
   */
  function PawnageInfo(password: string, p: Platform, respond: string -> string): (r: Option<string>)
    requires p.newLine != ""
    ensures var hex := PasswordHex(password, p);
            var lines := SplitNonEmpty(respond(RangeUrl(hex)), p.newLine);
            (r.Some? ==> r.value in lines && r.value != "" && Matches(r.value, Suffix(hex)))
            && (r.None? <==> forall line :: line in lines ==> !Matches(line, Suffix(hex)))
  {
    var hex := PasswordHex(password, p);
    var lines := SplitNonEmpty(respond(RangeUrl(hex)), p.newLine);
    FirstMatch(lines, Suffix(hex))
  }

  /**
   * GetPawnageInfo: hash, encode, send the range URL - and nothing else - to
   * the server, and return the first response line that contains the suffix.
   */
  method GetPawnageInfo(password: string, p: Platform, server: Server) returns (info: Option<string>)
    requires p.newLine != ""
    modifies server
    ensures server.requests == old(server.requests) + [RangeUrl(PasswordHex(password, p))]
    ensures info == PawnageInfo(password, p, server.respond)
  {
    var digest := p.sha1(p.utf8(password));
    var hash := new byte[|digest|](i requires 0 <= i < |digest| => digest[i]);
    assert hash[..] == digest;
    var hexString := ConvertToHexString(hash);

    var url := RangeApi + hexString[..5];
    assert url == RangeUrl(hexString);
    var webApiResponseContent := server.GetWebResponseContent(url);
    var lines := SplitNonEmpty(webApiResponseContent, p.newLine);
    ghost var suffix := Suffix(hexString);
    assert PawnageInfo(password, p, server.respond) == FirstMatch(lines, suffix);
    for i := 0 to |lines|
      invariant forall j :: 0 <= j < i ==> !Matches(lines[j], suffix)
    {
      if Contains(Lower(lines[i]), Lower(hexString[5..])) {
        assert Matches(lines[i], suffix);
        assert FindFrom(lines, suffix, 0) == i;
        return Some(lines[i]);
      }
    }
    return None;
  }

  /** Lower-case hexadecimal text is left alone by ToLower. */
  lemma LowerOfLowerHex(s: string)
    requires forall k :: 0 <= k < |s| ==> IsLowerHexDigit(s[k])
    ensures Lower(s) == s
  {
  }

  /**
   * A digest's hexadecimal form is a 5-digit prefix and a 35-digit suffix, which
   * together give the whole 40 digits back; the suffix is already lower case.
   */
  lemma DigestSplit(d: Digest)
    ensures |Prefix(Hex(d))| == 5 && |Suffix(Hex(d))| == 35
    ensures Prefix(Hex(d)) + Suffix(Hex(d)) == Hex(d)
    ensures forall k :: 0 <= k < 35 ==> IsLowerHexDigit(Suffix(Hex(d))[k])
    ensures Lower(Suffix(Hex(d))) == Suffix(Hex(d))
  {
    HexIsLowerHex(d);
    LowerOfLowerHex(Suffix(Hex(d)));
  }

  /** The first five digits are the nibbles of the first two bytes and the high nibble of the third. */
  lemma HexPrefixDigits(d: Digest)
    ensures Hex(d)[..5] == [HexDigit(d[0] as int / 16), HexDigit(d[0] as int % 16),
                            HexDigit(d[1] as int / 16), HexDigit(d[1] as int % 16),
                            HexDigit(d[2] as int / 16)]
  {
    HexAt(d, 0);
    HexAt(d, 1);
    HexAt(d, 2);
  }

  lemma HexDigitInjective(m: int, n: int)
    requires 0 <= m < 16 && 0 <= n < 16
    ensures HexDigit(m) == HexDigit(n) <==> m == n
  {
    assert HexValue(HexDigit(m)) == Some(m);
    assert HexValue(HexDigit(n)) == Some(n);
  }

  /**
   * The request URL is determined by the first 20 bits of the digest and by
   * nothing else: two digests give the same URL exactly when those bits agree.
   */
  lemma RangeUrlRevealsOnlyPrefix(d1: Digest, d2: Digest)
    ensures RangeUrl(Hex(d1)) == RangeUrl(Hex(d2))
            <==> d1[0] == d2[0] && d1[1] == d2[1] && d1[2] as int / 16 == d2[2] as int / 16
  {
    var p1, p2 := Hex(d1)[..5], Hex(d2)[..5];
    assert RangeUrl(Hex(d1)) == RangeUrl(Hex(d2)) <==> p1 == p2 by {
      assert RangeUrl(Hex(d1))[|RangeApi|..] == p1;
      assert RangeUrl(Hex(d2))[|RangeApi|..] == p2;
    }
    HexPrefixDigits(d1);
    HexPrefixDigits(d2);
    HexDigitInjective(d1[0] as int / 16, d2[0] as int / 16);
    HexDigitInjective(d1[0] as int % 16, d2[0] as int % 16);
    HexDigitInjective(d1[1] as int / 16, d2[1] as int / 16);
    HexDigitInjective(d1[1] as int % 16, d2[1] as int % 16);
    HexDigitInjective(d1[2] as int / 16, d2[2] as int / 16);
    assert p1 == p2 <==> p1[0] == p2[0] && p1[1] == p2[1] && p1[2] == p2[2] && p1[3] == p2[3] && p1[4] == p2[4];
  }

  /**
   * Containment, not equality: a line `<suffix in any case>:<count>` is the
   * result as soon as no earlier line matches.
   */
  lemma SuffixLineIsFound(lines: seq<string>, suffix: string, k: nat, hash: string, count: string)
    requires k < |lines| && lines[k] == hash + ":" + count
    requires Lower(hash) == Lower(suffix)
    requires forall j :: 0 <= j < k ==> !Matches(lines[j], suffix)
    ensures FirstMatch(lines, suffix) == Some(lines[k])
  {
    var line := lines[k];
    assert |hash| == |Lower(hash)| == |Lower(suffix)| == |suffix|;
    forall i | 0 <= i < |suffix|
      ensures LowerChar(line[i]) == LowerChar(suffix[i])
    {
      assert line[i] == hash[i];
      assert Lower(hash)[i] == Lower(suffix)[i];
    }
    assert OccursIgnoringCaseAt(line, suffix, 0);
    assert Matches(line, suffix);
  }

  /**
   * The looseness of containment: a line matches whenever its count field
   * contains the suffix, whatever its hash field is.
   */
  lemma CountFieldCanMatch(hash: string, count: string, suffix: string)
    requires Contains(Lower(count), Lower(suffix))
    ensures Matches(hash + ":" + count, suffix)
  {
    var j :| OccursAt(Lower(count), Lower(suffix), j);
    LowerConcat(hash + ":", count);
    OccursAfter(Lower(hash + ":"), Lower(count), Lower(suffix), j);
  }

  /** A case-insensitive occurrence of a text without ':' covers no ':' of the line. */
  lemma OccurrenceHasNoColon(line: string, suffix: string, j: int)
    requires OccursIgnoringCaseAt(line, suffix, j)
    requires forall k :: 0 <= k < |suffix| ==> suffix[k] != ':'
    ensures forall i :: j <= i < j + |suffix| ==> line[i] != ':'
  {
    forall i | j <= i < j + |suffix|
      ensures line[i] != ':'
    {
      var k := i - j;
      assert LowerChar(line[j + k]) == LowerChar(suffix[k]);
      assert LowerChar(suffix[k]) != ':';
    }
  }

  /**
   * For a well-formed response line — a 35-character hash field, a ':', and a
   * count shorter than 35 characters — containment of a 35-digit suffix is
   * the same as equality of the hash field with the suffix, ignoring case.
   */
  lemma ShortCountMatchIsExact(hash: string, count: string, suffix: string)
    requires |hash| == 35 && |suffix| == 35 && |count| < 35
    requires forall k :: 0 <= k < 35 ==> suffix[k] != ':'
    ensures Matches(hash + ":" + count, suffix) <==> Lower(hash) == Lower(suffix)
  {
    var line := hash + ":" + count;
    assert forall i :: 0 <= i < 35 ==> line[i] == hash[i];
    if Matches(line, suffix) {
      var j :| OccursIgnoringCaseAt(line, suffix, j);
      assert line[35] == ':';
      OccurrenceHasNoColon(line, suffix, j);
      assert j == 0;
      assert Lower(hash) == Lower(suffix) by {
        forall i | 0 <= i < 35 ensures Lower(hash)[i] == Lower(suffix)[i] {
          assert LowerChar(line[i]) == LowerChar(suffix[i]);
        }
      }
    }
    if Lower(hash) == Lower(suffix) {
      forall i | 0 <= i < 35 ensures LowerChar(line[i]) == LowerChar(suffix[i]) {
        assert Lower(hash)[i] == Lower(suffix)[i];
      }
      assert OccursIgnoringCaseAt(line, suffix, 0);
    }
  }
}
