/**
 * How the connection strings of src/components/Player/RPCDialogs.tsx are
 * framed for copy and paste: the JSON text is encoded with `toBase64` (UTF-8,
 * then base 64) and copied inside a pair of triple-backtick fences; pasted
 * text is trimmed, stripped of one leading and one trailing fence, and
 * decoded with `fromBase64` before `JSON.parse` reads it.  `JSON.parse` is a
 * parameter of the model.
 */
module Signalling {
  import opened Wrappers
  import Utf8
  import opened Base64

  const Fence: string := "```"

  // ------------------------------------------------------------ base 64 of text

  /** `toBase64`: `btoa` of the binary string that has one character per UTF-8 byte. */
  function ToBase64(s: string): (r: string)
    ensures |r| == 4 * ((|Utf8.Encode(s)| + 2) / 3)
    ensures forall i :: 0 <= i < |r| ==> IsAlphabet(r[i]) || r[i] == '='
  {
    var binary := BinaryString(Utf8.Encode(s));
    CharCodesBinaryString(Utf8.Encode(s));
    Btoa(binary).value
  }

  /**
   * `Uint8Array.from(binary, ch => ch.charCodeAt(0))`, on the binary strings
   * `atob` returns: one byte per character, each below 256.
   */
  function ToUint8Array(binary: string): (b: seq<Utf8.Byte>)
    requires IsBinary(binary)
    ensures |b| == |binary|
    ensures b == CharCodes(binary)
  {
    seq(|binary|, i requires 0 <= i < |binary| => binary[i] as int)
  }

  /** `fromBase64`: `None` where `atob` throws; the UTF-8 decoder itself never fails. */
  function FromBase64(text: string): (r: Option<string>)
    ensures r.Some? <==> Atob(text).Some?
  {
    match Atob(text)
    case None => None
    case Some(binary) => Some(Utf8.Decode(ToUint8Array(binary)))
  }

  /**
   * `fromBase64` undoes `toBase64` on every string that does not begin with
   * a byte order mark (which `TextDecoder` drops); the JSON text the dialogs
   * encode begins with `{`.
   */
  lemma FromBase64ToBase64(s: string)
    requires s == [] || s[0] != Utf8.ByteOrderMark
    ensures FromBase64(ToBase64(s)) == Some(s)
  {
    var bytes := Utf8.Encode(s);
    var binary := BinaryString(bytes);
    CharCodesBinaryString(bytes);
    AtobBtoa(binary);
    Utf8.DecodeEncode(s);
  }

  // ------------------------------------------------------------ fences

  /** The characters `String.prototype.trim` removes: white space and line terminators. */
  predicate IsJsWhitespace(c: char) {
    || c == '\t' || c == '\U{000B}' || c == '\U{000C}' || c == ' ' || c == '\U{00A0}' || c == '\U{FEFF}'
    || c == '\U{1680}' || ('\U{2000}' <= c <= '\U{200A}') || c == '\U{202F}' || c == '\U{205F}' || c == '\U{3000}'
    || c == '\n' || c == '\r' || c == '\U{2028}' || c == '\U{2029}'
  }

  predicate AllWhitespace(s: string) {
    forall i :: 0 <= i < |s| ==> IsJsWhitespace(s[i])
  }

  function TrimStart(s: string): (r: string)
    ensures |r| <= |s| && r == s[|s| - |r|..]
    ensures r == [] || !IsJsWhitespace(r[0])
    ensures AllWhitespace(s[..|s| - |r|])
  {
    if s == [] || !IsJsWhitespace(s[0]) then s
    else
      var r := TrimStart(s[1..]);
      assert s[..|s| - |r|] == [s[0]] + s[1..][..|s[1..]| - |r|];
      r
  }

  function TrimEnd(s: string): (r: string)
    ensures |r| <= |s| && r == s[..|r|]
    ensures r == [] || !IsJsWhitespace(r[|r| - 1])
    ensures AllWhitespace(s[|r|..])
  {
    if s == [] || !IsJsWhitespace(s[|s| - 1]) then s
    else
      var r := TrimEnd(s[..|s| - 1]);
      assert s[|r|..] == s[..|s| - 1][|r|..] + [s[|s| - 1]];
      r
  }

  /** `text.trim()`. */
  function Trim(s: string): string {
    TrimEnd(TrimStart(s))
  }

  predicate StartsWithFence(t: string) {
    |t| >= 3 && t[..3] == Fence
  }

  predicate EndsWithFence(t: string) {
    |t| >= 3 && t[|t| - 3..] == Fence
  }

  /**
   * `r` is what is left of `t` once one leading fence, if `t` starts with
   * one, and then one trailing fence, if the rest ends with one, are cut off:
   * `r == t[p..|t| - q]`, where `p` is 3 exactly when `t` starts with a fence
   * and `q` is 3 exactly when `t[p..]` ends with one.
   */
  predicate FencesRemoved(t: string, r: string) {
    var p := if StartsWithFence(t) then 3 else 0;
    p + |r| <= |t| && r == t[p..p + |r|] &&
    (if EndsWithFence(t[p..]) then p + |r| + 3 == |t| else p + |r| == |t|)
  }

  /** `.replace(/^```/, "").replace(/```$/, "")`: at most one fence goes from each end. */
  function RemoveFences(t: string): (r: string)
    ensures FencesRemoved(t, r)
    ensures |t| - 6 <= |r| <= |t|
    ensures !StartsWithFence(t) && !EndsWithFence(t) ==> r == t
  {
    var u := if StartsWithFence(t) then t[3..] else t;
    if EndsWithFence(u) then u[..|u| - 3] else u
  }

  /** The paste step: `text.trim()`, then at most one fence cut from each end. */
  function StripFence(text: string): (r: string)
    ensures FencesRemoved(Trim(text), r)
    ensures |Trim(text)| - 6 <= |r| <= |Trim(text)|
  {
    RemoveFences(Trim(text))
  }

  /** The text copied to the clipboard: the connection string between two fences. */
  function WrapFence(s: string): (r: string)
    ensures |r| == |s| + 6
  {
    Fence + s + Fence
  }

  lemma {:induction false} TrimStartSkipsWhitespace(ws: string, s: string)
    requires AllWhitespace(ws) && s != [] && !IsJsWhitespace(s[0])
    ensures TrimStart(ws + s) == s
  {
    if ws != [] {
      assert (ws + s)[1..] == ws[1..] + s;
      TrimStartSkipsWhitespace(ws[1..], s);
    }
  }

  lemma {:induction false} TrimEndSkipsWhitespace(s: string, ws: string)
    requires AllWhitespace(ws) && s != [] && !IsJsWhitespace(s[|s| - 1])
    ensures TrimEnd(s + ws) == s
  {
    if ws != [] {
      var w := ws[..|ws| - 1];
      assert (s + ws)[..|s + ws| - 1] == s + w;
      TrimEndSkipsWhitespace(s, w);
    }
  }

  /** Trimming removes surrounding white space from a text that starts and ends with something else. */
  lemma TrimSurrounded(ws1: string, s: string, ws2: string)
    requires AllWhitespace(ws1) && AllWhitespace(ws2)
    requires s != [] && !IsJsWhitespace(s[0]) && !IsJsWhitespace(s[|s| - 1])
    ensures Trim(ws1 + s + ws2) == s
  {
    assert ws1 + s + ws2 == ws1 + (s + ws2);
    TrimStartSkipsWhitespace(ws1, s + ws2);
    TrimEndSkipsWhitespace(s, ws2);
  }

  /**
   * Pasting undoes copying: whatever white space surrounds the copied text,
   * stripping gives back the string between the fences.
   */
  lemma StripWrapFence(ws1: string, s: string, ws2: string)
    requires AllWhitespace(ws1) && AllWhitespace(ws2)
    ensures StripFence(ws1 + WrapFence(s) + ws2) == s
  {
    var w := WrapFence(s);
    WrapFenceEnds(s);
    TrimSurrounded(ws1, w, ws2);
    RemoveFencesWrapFence(s);
  }

  lemma WrapFenceEnds(s: string)
    ensures var w := WrapFence(s); w != [] && w[0] == '`' && w[|w| - 1] == '`'
  {
  }

  /** Removing the fences undoes wrapping in them. */
  lemma RemoveFencesWrapFence(s: string)
    ensures RemoveFences(WrapFence(s)) == s
  {
    var t := WrapFence(s);
    assert t[..3] == Fence && t[3..] == s + Fence;
    var u := s + Fence;
    assert u[|u| - 3..] == Fence && u[..|u| - 3] == s;
  }

  // ------------------------------------------------------------ paste

  /**
   * `JSON.parse(fromBase64(stripped))`: `None` when either step throws.  In
   * the host's answer dialog that is the case reported to the user, and no
   * connection step is taken.
   */
  function ParsePasted<P>(text: string, parseJson: string -> Option<P>): (r: Option<P>)
    ensures FromBase64(StripFence(text)).None? ==> r.None?
    ensures FromBase64(StripFence(text)).Some? ==> r == parseJson(FromBase64(StripFence(text)).value)
  {
    match FromBase64(StripFence(text))
    case None => None
    case Some(json) => parseJson(json)
  }

  /** What the user sees after pasting into the client's offer dialog. */
  datatype PasteOutcome<P> =
    | Parsed(value: P)
    | Reported    // the "Error parsing offer" alert
    | Unreported  // the handler's promise rejects and nothing is shown

  /**
   * The client's offer handler as written: its `catch` block logs
   * `fromBase64(offer)` a second time, which throws again when the offer is
   * not valid base 64, so the alert is reached only for valid base 64 that
   * is not JSON.
   */
  function ClientPasteAsWritten<P>(text: string, parseJson: string -> Option<P>): (r: PasteOutcome<P>)
    ensures r.Parsed? <==> ParsePasted(text, parseJson).Some?
    ensures r.Parsed? ==> ParsePasted(text, parseJson) == Some(r.value)
    ensures r.Reported? <==> FromBase64(StripFence(text)).Some? && ParsePasted(text, parseJson).None?
    ensures r.Unreported? <==> FromBase64(StripFence(text)).None?
  {
    match FromBase64(StripFence(text))
    case None => Unreported
    case Some(json) =>
      match parseJson(json)
      case Some(p) => Parsed(p)
      case None => Reported
  }

  /** The client's offer handler as intended: every failure to parse is reported. */
  function ClientPaste<P>(text: string, parseJson: string -> Option<P>): (r: PasteOutcome<P>)
    ensures !r.Unreported?
    ensures r.Reported? <==> ParsePasted(text, parseJson).None?
    ensures r.Parsed? ==> ParsePasted(text, parseJson) == Some(r.value)
  {
    match ParsePasted(text, parseJson)
    case Some(p) => Parsed(p)
    case None => Reported
  }

  /**
   * A fenced paste with a lone trailing base 64 character goes unreported in
   * the client as written, and is reported by the corrected handler.
   */
  lemma TruncatedClientPasteIsNotReported<P>(s: string, parseJson: string -> Option<P>)
    requires |s| % 4 == 1 && (forall i :: 0 <= i < |s| ==> IsAlphabet(s[i]))
    ensures ClientPasteAsWritten(WrapFence(s), parseJson) == Unreported
    ensures ClientPaste(WrapFence(s), parseJson) == Reported
  {
    StripBareFence(s);
    AlphabetIsNotWhitespace(s);
    AtobRejectsLoneCharacter(s);
  }

  /**
   * The copy-paste round trip of a connection string: the peer that pastes
   * the copied text parses exactly the JSON text that was copied.
   */
  lemma CopyPasteRoundTrip<P>(json: string, ws1: string, ws2: string, parseJson: string -> Option<P>)
    requires json == [] || json[0] != Utf8.ByteOrderMark
    requires AllWhitespace(ws1) && AllWhitespace(ws2)
    ensures ParsePasted(ws1 + WrapFence(ToBase64(json)) + ws2, parseJson) == parseJson(json)
  {
    StripWrapFence(ws1, ToBase64(json), ws2);
    FromBase64ToBase64(json);
  }

  /** A pasted text whose data leaves one character over in its last group is reported, not parsed. */
  lemma TruncatedPasteIsRejected<P>(s: string, parseJson: string -> Option<P>)
    requires |s| % 4 == 1 && (forall i :: 0 <= i < |s| ==> IsAlphabet(s[i]))
    ensures ParsePasted(WrapFence(s), parseJson) == None
  {
    StripBareFence(s);
    AlphabetIsNotWhitespace(s);
    AtobRejectsLoneCharacter(s);
  }

  lemma StripBareFence(s: string)
    ensures StripFence(WrapFence(s)) == s
  {
    StripWrapFence([], s, []);
    assert [] + WrapFence(s) + [] == WrapFence(s);
  }

  lemma AlphabetIsNotWhitespace(s: string)
    requires forall i :: 0 <= i < |s| ==> IsAlphabet(s[i])
    ensures forall i :: 0 <= i < |s| ==> !IsAsciiWhitespace(s[i])
  {
  }
}
