/** `from_line`: the client address of one load-balancer access-log line. */
module LineParser {
  import opened Outcomes
  import opened Text
  import Ipv4

  /** The text before the first ':' of a `client:port` field. */
  function HostPart(field: string): (host: string)
    ensures ':' !in host
    ensures host == field || host + [':'] <= field
  {
    FirstPiece(field, ':');
    Split(field, ':')[0]
  }

  /** Takes the fourth whitespace-separated field of the line, cuts it at the
      first ':' and parses the part before it as an IPv4 address. A line with
      fewer than four fields has no address; a fourth field whose host part is
      not an address makes the program panic. */
  function FromLine(line: string): (r: Outcome<Option<Ipv4.Addr>>)
    ensures r == Done(None) <==> |Tokens(line)| < 4
    ensures r.Aborted? <==> |Tokens(line)| >= 4 && Ipv4.Parse(HostPart(Tokens(line)[3])).None?
    ensures r.Aborted? ==> r.reason == InvalidIp
  {
    var fields := Tokens(line);
    if |fields| > 3 then
      var pieces := Split(fields[3], ':');
      if |pieces| > 0 then
        match Ipv4.Parse(pieces[0])
        case Some(addr) => Done(Some(addr))
        case None => Aborted(InvalidIp)
      else
        Done(None)
    else
      Done(None)
  }

  /** A line yields address `ip` exactly when its fourth field begins with
      the dotted-quad form of `ip` followed by ':' or by the end of the field. */
  lemma FromLineFinds(line: string, ip: Ipv4.Addr)
    ensures FromLine(line) == Done(Some(ip)) <==>
              |Tokens(line)| >= 4 && HostPart(Tokens(line)[3]) == Ipv4.Format(ip)
  {
    var fields := Tokens(line);
    if |fields| >= 4 {
      Ipv4.ParseIff(HostPart(fields[3]), ip);
    }
  }

  /** An access-log line whose fourth field is `<ip>:<port>` yields `ip`,
      whatever the other fields hold. */
  lemma {:induction false} FromLineOfAccessLog(f0: string, f1: string, f2: string,
                                               ip: Ipv4.Addr, port: string, tail: string)
    requires IsWord(f0) && IsWord(f1) && IsWord(f2)
    requires forall i :: 0 <= i < |port| ==> !IsWhitespace(port[i])
    requires tail == [] || IsWhitespace(tail[0])
    ensures FromLine(f0 + " " + f1 + " " + f2 + " " + Ipv4.Format(ip) + ":" + port + tail)
            == Done(Some(ip))
  {
    var host := Ipv4.Format(ip);
    var field := host + ":" + port;
    ClientFieldIsWord(ip, port);
    var s2 := f2 + " " + (field + tail);
    var s1 := f1 + " " + s2;
    var line := f0 + " " + s1;
    assert line == f0 + " " + f1 + " " + f2 + " " + host + ":" + port + tail;
    TokensOfWord(field, tail);
    TokensOfSpacedWord(f2, field + tail);
    TokensOfSpacedWord(f1, s2);
    TokensOfSpacedWord(f0, s1);
    assert Tokens(line)[3] == field;
    SplitOfPiece(host, ':', port);
    assert field == host + [':'] + port;
    FromLineFinds(line, ip);
  }

  lemma ClientFieldIsWord(ip: Ipv4.Addr, port: string)
    requires forall i :: 0 <= i < |port| ==> !IsWhitespace(port[i])
    ensures IsWord(Ipv4.Format(ip) + ":" + port)
    ensures ':' !in Ipv4.Format(ip)
  {
    var host := Ipv4.Format(ip);
    Ipv4.FormatIsWord(ip);
    var field := host + ":" + port;
    forall i | 0 <= i < |field| ensures !IsWhitespace(field[i]) {
      if i < |host| { assert field[i] == host[i]; }
      else if i > |host| { assert field[i] == port[i - |host| - 1]; }
    }
  }
}
