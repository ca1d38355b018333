/** The backend's settings and the list of origins it allows for cross-origin requests.
    Reading the settings from `POMOTRACK_`-prefixed environment variables is left to the
    caller: a `Settings` value holds what was read. */
module BackendConfig {
  import Text
  import Seqs

  datatype Settings = Settings(port: int, logLevel: string, corsOrigins: string)

  /** The settings when no environment variable is set. */
  const DefaultSettings: Settings := Settings(7070, "info", "")

  const LOCALHOST: string := "http://localhost:"
  const LOOPBACK: string := "http://127.0.0.1:"
  /** The port of the Vite development server. */
  const VITE_PORT: string := "5173"

  /** The four origins always allowed: the backend itself on `port` and the Vite development
      server, each as `localhost` and as `127.0.0.1`. */
  function DefaultOrigins(port: int): (r: seq<string>)
    ensures |r| == 4
    ensures Text.StartsWith(r[0], LOCALHOST) && Text.StartsWith(r[1], LOOPBACK)
    ensures Text.StartsWith(r[2], LOCALHOST) && Text.StartsWith(r[3], LOOPBACK)
    ensures r[0][|LOCALHOST|..] == Text.IntToString(port) && r[1][|LOOPBACK|..] == Text.IntToString(port)
    ensures r[2][|LOCALHOST|..] == VITE_PORT && r[3][|LOOPBACK|..] == VITE_PORT
  {
    var p := Text.IntToString(port);
    HostPort(LOCALHOST, p);
    HostPort(LOOPBACK, p);
    HostPort(LOCALHOST, VITE_PORT);
    HostPort(LOOPBACK, VITE_PORT);
    [LOCALHOST + p, LOOPBACK + p, LOCALHOST + VITE_PORT, LOOPBACK + VITE_PORT]
  }

  /** An origin starts with its scheme and host, and the rest is its port. */
  lemma HostPort(host: string, port: string)
    ensures Text.StartsWith(host + port, host) && (host + port)[|host|..] == port
  {
    assert (host + port)[..|host|] == host;
  }

  /** Python's `str.strip()`. */
  function Strip(s: string): string {
    Text.Trim(s, Text.PyWhitespace)
  }

  /** A piece that is not all whitespace. */
  predicate IsNonBlank(piece: string) {
    Strip(piece) != ""
  }

  /** `[o.strip() for o in pieces if o.strip()]`, where `strip` removes the characters in `ws`. */
  function StrippedNonBlank(pieces: seq<string>, ws: set<char>): (r: seq<string>)
    ensures |r| <= |pieces|
    ensures forall k :: 0 <= k < |r| ==>
      exists j :: 0 <= j < |pieces| && r[k] == Text.Trim(pieces[j], ws) && r[k] != ""
  {
    if pieces == [] then []
    else
      var o := Text.Trim(pieces[0], ws);
      var rest := StrippedNonBlank(pieces[1..], ws);
      assert forall j :: 0 <= j < |pieces| - 1 ==> pieces[1..][j] == pieces[j + 1];
      (if o != "" then [o] else []) + rest
  }

  /** One piece gives its stripped text, or nothing when that is empty; with
      `StrippedAppend` this fixes the result piece by piece. */
  lemma StrippedSingle(p: string, ws: set<char>)
    ensures StrippedNonBlank([p], ws) == if Text.Trim(p, ws) != "" then [Text.Trim(p, ws)] else []
  {
    assert [p][1..] == [];
  }

  /** Every result is non-empty and already stripped. */
  lemma {:induction false} StrippedWellFormed(pieces: seq<string>, ws: set<char>)
    ensures forall k :: 0 <= k < |StrippedNonBlank(pieces, ws)| ==>
      var o := StrippedNonBlank(pieces, ws)[k];
      o != "" && Text.Trim(o, ws) == o
  {
    if pieces != [] {
      StrippedWellFormed(pieces[1..], ws);
      Text.TrimIdempotent(pieces[0], ws);
      var o := Text.Trim(pieces[0], ws);
      var rest := StrippedNonBlank(pieces[1..], ws);
      var r := StrippedNonBlank(pieces, ws);
      if o != "" {
        assert r == [o] + rest;
        assert r[0] == o && r[1..] == rest;
      } else {
        assert r == rest;
      }
    }
  }

  /** Stripping keeps the pieces in order, so it distributes over concatenation. */
  lemma {:induction false} StrippedAppend(a: seq<string>, b: seq<string>, ws: set<char>)
    ensures StrippedNonBlank(a + b, ws) == StrippedNonBlank(a, ws) + StrippedNonBlank(b, ws)
  {
    if a != [] {
      var ab := a + b;
      assert ab[0] == a[0];
      assert ab[1..] == a[1..] + b;
      StrippedAppend(a[1..], b, ws);
      var o := Text.Trim(a[0], ws);
      var head := if o != "" then [o] else [];
      assert StrippedNonBlank(ab, ws) == head + StrippedNonBlank(a[1..] + b, ws);
      assert StrippedNonBlank(a, ws) == head + StrippedNonBlank(a[1..], ws);
      Seqs.AppendAssoc(head, StrippedNonBlank(a[1..], ws), StrippedNonBlank(b, ws));
    } else {
      assert a + b == b;
    }
  }

  /** A character absent from every piece is absent from every result. */
  lemma {:induction false} StrippedKeepsOut(pieces: seq<string>, ws: set<char>, c: char)
    requires forall j :: 0 <= j < |pieces| ==> c !in pieces[j]
    ensures forall k :: 0 <= k < |StrippedNonBlank(pieces, ws)| ==> c !in StrippedNonBlank(pieces, ws)[k]
  {
    if pieces != [] {
      StrippedKeepsOut(pieces[1..], ws, c);
      var p := pieces[0];
      var o := Text.Trim(p, ws);
      var lead := Text.Lead(p, ws);
      Text.TrimSpec(p, ws);
      assert o == p[lead..lead + |o|];
      forall i | 0 <= i < |o| ensures o[i] != c {
        assert o[i] == p[lead + i];
      }
    }
  }

  /** The extra origins listed, comma-separated, in `corsOrigins`. */
  function ExtraOrigins(corsOrigins: string): (r: seq<string>)
    ensures |r| <= |Text.Split(corsOrigins, ',')|
    ensures forall k :: 0 <= k < |r| ==> r[k] != "" && ',' !in r[k] && Strip(r[k]) == r[k]
    ensures forall k :: 0 <= k < |r| ==>
      exists j :: 0 <= j < |Text.Split(corsOrigins, ',')| && r[k] == Strip(Text.Split(corsOrigins, ',')[j])
  {
    var pieces := Text.Split(corsOrigins, ',');
    StrippedKeepsOut(pieces, Text.PyWhitespace, ',');
    StrippedWellFormed(pieces, Text.PyWhitespace);
    StrippedNonBlank(pieces, Text.PyWhitespace)
  }

  /** `Settings.get_cors_origins`: the four default origins, then the extra ones. */
  function GetCorsOrigins(s: Settings): (r: seq<string>)
    ensures |r| >= 4 && r[..4] == DefaultOrigins(s.port)
    ensures r[4..] == ExtraOrigins(s.corsOrigins)
    ensures s.corsOrigins == "" ==> r == DefaultOrigins(s.port)
  {
    var defaults := DefaultOrigins(s.port);
    if s.corsOrigins != "" then
      defaults + ExtraOrigins(s.corsOrigins)
    else
      assert ExtraOrigins(s.corsOrigins) == [] by {
        assert Text.Split("", ',') == [""];
        assert Strip("") == "";
      }
      defaults
  }

  /** With nothing configured the backend allows its own port and the Vite server. */
  lemma DefaultSettingsOrigins()
    ensures GetCorsOrigins(DefaultSettings) ==
      ["http://localhost:7070", "http://127.0.0.1:7070", "http://localhost:5173", "http://127.0.0.1:5173"]
  {
    assert GetCorsOrigins(DefaultSettings) == DefaultOrigins(7070);
    DefaultPortText();
    OriginsOnPort(Text.IntToString(7070));
  }

  /** The origin strings on a port given as a parameter, which keeps the literal
      concatenations out of `DefaultSettingsOrigins`. */
  lemma OriginsOnPort(port: string)
    requires port == "7070"
    ensures [LOCALHOST + port, LOOPBACK + port, LOCALHOST + VITE_PORT, LOOPBACK + VITE_PORT]
      == ["http://localhost:7070", "http://127.0.0.1:7070", "http://localhost:5173", "http://127.0.0.1:5173"]
  {
    assert LOCALHOST + port == "http://localhost:7070";
    assert LOOPBACK + port == "http://127.0.0.1:7070";
    assert LOCALHOST + VITE_PORT == "http://localhost:5173";
    assert LOOPBACK + VITE_PORT == "http://127.0.0.1:5173";
  }

  lemma DefaultPortText()
    ensures Text.IntToString(7070) == "7070"
  {
    assert Text.NatToString(7) == "7";
    assert Text.NatToString(70) == "7" + [Text.DigitChar(0)] == "70";
    assert Text.NatToString(707) == "70" + [Text.DigitChar(7)] == "707";
    assert Text.NatToString(7070) == "707" + [Text.DigitChar(0)] == "7070";
  }

  /** The number of extra origins is the number of comma-separated pieces that are not blank. */
  lemma {:induction false} StrippedCount(pieces: seq<string>)
    ensures |StrippedNonBlank(pieces, Text.PyWhitespace)| == |Seqs.Filter(pieces, IsNonBlank)|
  {
    if pieces != [] {
      StrippedCount(pieces[1..]);
      Seqs.FilterCons(pieces[0], pieces[1..], IsNonBlank);
      assert pieces == [pieces[0]] + pieces[1..];
    }
  }

  /** The allowed origins are the four defaults plus one per non-blank comma-separated piece. */
  lemma {:induction false} CorsOriginsCount(s: Settings)
    ensures |GetCorsOrigins(s)| == 4 + |Seqs.Filter(Text.Split(s.corsOrigins, ','), IsNonBlank)|
  {
    StrippedCount(Text.Split(s.corsOrigins, ','));
  }

  /** Listing origins in two strings joined by a comma lists both, in order. */
  lemma {:induction false} ExtraOriginsConcat(a: string, b: string)
    ensures ExtraOrigins(a + "," + b) == ExtraOrigins(a) + ExtraOrigins(b)
  {
    Text.SplitAppend(a, b, ',');
    StrippedAppend(Text.Split(a, ','), Text.Split(b, ','), Text.PyWhitespace);
  }
}
