/** Properties proved of the tcpip.sys signature shipped in the usage
    text: it is in the encoder's text format, and the module search's
    filter never rejects a match of it. */
module UsageSignature {
  import opened Words
  import opened Signature
  import opened TextFormat
  import opened ModuleScan

  /** The tcpip.sys signature from the usage text, and the entries it
      stands for: one non-executable page (the header), 0x19a executable
      pages, 0x55 non-executable pages and one executable page. */
  const TCPIP_TEXT: string := "01809a0155800100"
  const TCPIP_SIG: seq<u16> := [0x8001, 0x019a, 0x8055, 0x0001]

  /** The tcpip.sys signature is exactly what the encoder prints for its
      entries, and `-sig` loads those entries from it. */
  lemma TcpipExample()
    ensures SignatureText(TCPIP_SIG) == TCPIP_TEXT
    ensures DecodeSignature(TCPIP_TEXT) == TCPIP_SIG
  {
    TcpipBytes();
    TcpipHex();
    SignatureTextRoundTrip(TCPIP_SIG);
  }

  lemma TcpipBytes()
    ensures EntryBytes(TCPIP_SIG) == [0x01, 0x80, 0x9a, 0x01, 0x55, 0x80, 0x01, 0x00]
  {
    var sig := TCPIP_SIG;
    assert EntryBytes(sig[3..]) == [0x01, 0x00];
    assert EntryBytes(sig[2..]) == [0x55, 0x80, 0x01, 0x00];
    assert EntryBytes(sig[1..]) == [0x9a, 0x01, 0x55, 0x80, 0x01, 0x00];
  }

  lemma TcpipHex()
    ensures HexText([0x01, 0x80, 0x9a, 0x01, 0x55, 0x80, 0x01, 0x00]) == TCPIP_TEXT
  {
    HexPair(0x01, 0x80, "0180");
    HexPair(0x9a, 0x01, "9a01");
    HexPair(0x55, 0x80, "5580");
    HexPair(0x01, 0x00, "0100");
    HexTextAppend([0x55, 0x80], [0x01, 0x00]);
    HexTextAppend([0x9a, 0x01], [0x55, 0x80, 0x01, 0x00]);
    HexTextAppend([0x01, 0x80], [0x9a, 0x01, 0x55, 0x80, 0x01, 0x00]);
    TcpipPieces();
  }

  lemma TcpipPieces()
    ensures "0180" + ("9a01" + ("5580" + "0100")) == TCPIP_TEXT
  {
  }

  /** The tcpip.sys entries are canonical and describe 0x1f1 pages: a
      non-executable header page followed by executable code, so the
      filter at offset 0x1000 never drops a module that matches them. */
  lemma TcpipLayout()
    ensures Canonical(TCPIP_SIG)
    ensures |Expand(TCPIP_SIG)| == 0x1f1
    ensures !Expand(TCPIP_SIG)[0] && Expand(TCPIP_SIG)[1]
  {
    var sig := TCPIP_SIG;
    ExpandAppend(sig[..2], sig[2..]);
    assert sig[..2] + sig[2..] == sig;
    ExpandLength(sig);
    assert sig[..2][..1] == [0x8001];
    assert Expand([0x8001]) == [false] by {
      assert Expand([0x8001][..0]) == [];
    }
    assert Expand(sig[..2]) == [false] + Repeat(true, 0x19a);
  }

  /** A candidate that matches the tcpip.sys entries passes the filter. */
  lemma TcpipFilterSound(exec: ExecOracle, a: u64)
    requires Matches(exec, a, TCPIP_SIG)
    ensures PassesFilter(exec, a)
  {
    TcpipLayout();
    FilterKeepsMatches(exec, a, TCPIP_SIG);
  }
}
