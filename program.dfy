/**
 * Program: the command-line entry point. It chooses what to do by the number
 * of arguments and shows the hash and count fields of the line the lookup
 * returns. The file also holds its own copies of GetPawnageInfo and
 * ConvertToHexString, which Main uses.
 */
module Program {
  import opened Wrappers
  import opened Text
  import ByteArrayHelper
  import opened PawnageHelper
  import opened WebHelper

  /** Which message the program shows. */
  datatype Outcome =
    | Help                                   // no argument: usage text, no lookup
    | NotPawned                              // the lookup returned null
    | Pawned(hash: string, count: string)    // the two fields of the returned line
    | CountMissing(hash: string)             // the returned line has no ':'; Split(':')[1] throws
    | TooManyArguments                       // more than one argument: no lookup

  /** How the process ends. */
  datatype ExitStatus = Exit(code: int) | UnhandledException

  /**
   * The hash is the text before the first ':', the count the trimmed text
   * between the first and second ':'. A null result shows the not-found
   * message; a line without ':' loses its count.
   */
  function Report(info: Option<string>): (o: Outcome)
    ensures info.None? <==> o.NotPawned?
    ensures info.Some? <==> o.Pawned? || o.CountMissing?
    ensures o.CountMissing? ==> info == Some(o.hash) && !Contains(o.hash, ":")
  {
    match info
    case None => NotPawned
    case Some(line) =>
      var fields := Split(line, ":");
      if |fields| >= 2 then Pawned(fields[0], Trim(fields[1])) else CountMissing(fields[0])
  }

  /**
   * Main: dispatch on the number of arguments. Console output is left out; the
   * outcome names the message. Only the one-argument case sends a request,
   * and that request is the range URL of the argument.
   */
  method Run(args: seq<string>, p: Platform, server: Server) returns (outcome: Outcome, status: ExitStatus)
    requires p.newLine != ""
    modifies server
    ensures |args| != 1 ==> server.requests == old(server.requests)
    ensures |args| == 0 ==> outcome == Help && status == Exit(0)
    ensures |args| == 1 ==> server.requests == old(server.requests) + [RangeUrl(PasswordHex(args[0], p))]
    ensures |args| == 1 ==> outcome == Report(PawnageInfo(args[0], p, server.respond))
    ensures |args| == 1 ==> status == if outcome.CountMissing? then UnhandledException else Exit(0)
    ensures |args| > 1 ==> outcome == TooManyArguments && status == Exit(-1)
  {
    if |args| == 0 {
      outcome, status := Help, Exit(0);
    } else if |args| == 1 {
      var pawnageInfo := GetPawnageInfo(args[0], p, server);
      if pawnageInfo == None {
        outcome := NotPawned;
      } else {
        var fields := Split(pawnageInfo.value, ":");
        if |fields| < 2 {
          outcome := CountMissing(fields[0]);
        } else {
          outcome := Pawned(fields[0], Trim(fields[1]));
        }
      }
      status := if outcome.CountMissing? then UnhandledException else Exit(0);
    } else {
      outcome, status := TooManyArguments, Exit(-1);
    }
  }

  /** The in-file GetPawnageInfo: the same steps as PawnageHelper.GetPawnageInfo, so the same request and result. */
  method GetPawnageInfo(password: string, p: Platform, server: Server) returns (info: Option<string>)
    requires p.newLine != ""
    modifies server
    ensures server.requests == old(server.requests) + [RangeUrl(PasswordHex(password, p))]
    ensures info == PawnageHelper.PawnageInfo(password, p, server.respond)
  {
    var digest := p.sha1(p.utf8(password));
    var hash := new ByteArrayHelper.byte[|digest|](i requires 0 <= i < |digest| => digest[i]);
    assert hash[..] == digest;
    var hexString := ConvertToHexString(hash);

    var url := RangeApi + hexString[..5];
    assert url == RangeUrl(hexString);
    var webApiResponseContent := server.GetWebResponseContent(url);
    var lines := SplitNonEmpty(webApiResponseContent, p.newLine);
    ghost var suffix := Suffix(hexString);
    assert PawnageInfo(password, p, server.respond) == FirstMatch(lines, suffix);
    for i := 0 to |lines|
      invariant forall j :: 0 <= j < i ==> !Matches(lines[j], suffix)
    {
      if Contains(Lower(lines[i]), Lower(hexString[5..])) {
        assert Matches(lines[i], suffix);
        assert FindFrom(lines, suffix, 0) == i;
        return Some(lines[i]);
      }
    }
    return None;
  }

  /** The in-file ConvertToHexString: the same loop as ByteArrayHelper.ConvertToHexString, so the same string. */
  method ConvertToHexString(bytes: array<ByteArrayHelper.byte>) returns (hex: string)
    ensures hex == ByteArrayHelper.Hex(bytes[..])
  {
    hex := "";
    for i := 0 to bytes.Length
      invariant hex == ByteArrayHelper.Hex(bytes[..i])
    {
      ByteArrayHelper.HexConcat(bytes[..i], [bytes[i]]);
      assert bytes[..i + 1] == bytes[..i] + [bytes[i]];
      hex := hex + ByteArrayHelper.FormatX2(bytes[i]);
    }
    assert bytes[..bytes.Length] == bytes[..];
  }

  /** With a one-character separator, an occurrence is just that character. */
  lemma OccursAtChar(s: string, c: char, j: int)
    ensures OccursAt(s, [c], j) <==> 0 <= j < |s| && s[j] == c
  {
    if 0 <= j < |s| {
      assert s[j..j + 1] == [s[j]];
    }
  }

  /** Text with no ':' is a single field. */
  lemma SplitNoColon(s: string)
    requires ':' !in s
    ensures Split(s, ":") == [s]
  {
    forall j ensures !OccursAt(s, ":", j) {
      OccursAtChar(s, ':', j);
    }
  }

  /** Text before the first ':' is the first field; the fields after it are those of the rest. */
  lemma SplitAtFirstColon(h: string, rest: string)
    requires ':' !in h
    ensures Split(h + ":" + rest, ":") == [h] + Split(rest, ":")
  {
    var s := h + ":" + rest;
    forall j | 0 <= j < |h| ensures !OccursAt(s, ":", j) {
      OccursAtChar(s, ':', j);
      assert s[j] == h[j];
    }
    OccursAtChar(s, ':', |h|);
    var r := IndexFrom(s, ":", 0);
    assert r == Some(|h|);
    assert s[..|h|] == h;
    assert s[|h| + 1..] == rest;
  }

  /** The first `:`-field of `<count>` or `<count>:<more>` is the count. */
  lemma FirstField(count: string, more: string)
    requires ':' !in count
    requires more == "" || more[0] == ':'
    ensures Split(count + more, ":")[0] == count
  {
    if more == "" {
      assert count + more == count;
      SplitNoColon(count);
    } else {
      assert count + more == count + ":" + more[1..];
      SplitAtFirstColon(count, more[1..]);
    }
  }

  /** The first two `:`-fields of `<hash>:<count>` or `<hash>:<count>:<more>` are the hash and the count. */
  lemma FirstTwoFields(hash: string, count: string, more: string)
    requires ':' !in hash && ':' !in count
    requires more == "" || more[0] == ':'
    ensures var fields := Split(hash + ":" + count + more, ":");
            |fields| >= 2 && fields[0] == hash && fields[1] == count
  {
    assert hash + ":" + count + more == hash + ":" + (count + more);
    SplitAtFirstColon(hash, count + more);
    FirstField(count, more);
  }

  /**
   * A found line `<hash>:<count>` or `<hash>:<count>:<more>` is shown as that
   * hash and the count with the white space around it trimmed.
   */
  lemma ReportFields(hash: string, count: string, more: string)
    requires ':' !in hash && ':' !in count
    requires more == "" || more[0] == ':'
    ensures Report(Some(hash + ":" + count + more)) == Pawned(hash, Trim(count))
  {
    FirstTwoFields(hash, count, more);
  }

  /** The count field is missing exactly when the line has no ':'; the whole line is then the hash. */
  lemma ReportCountMissing(line: string)
    ensures Report(Some(line)).CountMissing? <==> ':' !in line
    ensures ':' !in line ==> Report(Some(line)) == CountMissing(line)
  {
    if ':' in line {
      var j :| 0 <= j < |line| && line[j] == ':';
      OccursAtChar(line, ':', j);
      assert IndexFrom(line, ":", 0).Some?;
    } else {
      SplitNoColon(line);
    }
  }
}
