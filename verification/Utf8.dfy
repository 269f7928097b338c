/** repo/ws/wsutil/utf8.go: the table-driven UTF-8 automaton, against section 4 of RFC 3629. */
module Utf8 {
  import opened Bytes
  import opened Streams

  const Accept := 0
  const Reject := 12

  /** First part of utf8d: the character class of a byte. */
  function Class(b: byte): (t: nat)
    ensures t < 12
  {
    if b < 0x80 then 0
    else if b < 0x90 then 1
    else if b < 0xA0 then 9
    else if b < 0xC0 then 7
    else if b < 0xC2 then 8
    else if b < 0xE0 then 2
    else if b < 0xE1 then 10
    else if b < 0xED then 3
    else if b < 0xEE then 4
    else if b < 0xF0 then 3
    else if b < 0xF1 then 11
    else if b < 0xF4 then 6
    else if b < 0xF5 then 5
    else 8
  }

  /** Second part of utf8d, 256 + state + t: one row of twelve per state. */
  function Row(state: nat): (r: seq<nat>)
    ensures |r| == 12
  {
    match state
    case 0 => [0, 12, 24, 36, 60, 96, 84, 12, 12, 12, 48, 72]
    case 24 => [12, 0, 12, 12, 12, 12, 12, 0, 12, 0, 12, 12]
    case 36 => [12, 24, 12, 12, 12, 12, 12, 24, 12, 24, 12, 12]
    case 48 => [12, 12, 12, 12, 12, 12, 12, 24, 12, 12, 12, 12]
    case 60 => [12, 24, 12, 12, 12, 12, 12, 12, 12, 24, 12, 12]
    case 72 => [12, 12, 12, 12, 12, 12, 12, 36, 12, 36, 12, 12]
    case 84 => [12, 36, 12, 12, 12, 12, 12, 36, 12, 36, 12, 12]
    case 96 => [12, 36, 12, 12, 12, 12, 12, 12, 12, 12, 12, 12]
    case _ => [12, 12, 12, 12, 12, 12, 12, 12, 12, 12, 12, 12]
  }

  function Next(state: nat, b: byte): nat { Row(state)[Class(b)] }

  /** The bits of a leading byte that count: 0xff >> t. */
  function LeadBits(t: nat): bv32 {
    match t
    case 0 => 0xFF
    case 1 => 0x7F
    case 2 => 0x3F
    case 3 => 0x1F
    case 4 => 0x0F
    case 5 => 0x07
    case 6 => 0x03
    case 7 => 0x01
    case _ => 0
  }

  datatype Decoder = Decoder(state: nat, codep: bv32)

  const Start := Decoder(Accept, 0)

  function Decode(d: Decoder, b: byte): Decoder {
    Decoder(Next(d.state, b),
            if d.state != Accept then Push(d.codep, b) else Lead(b))
  }

  /** Six more bits of the code point. */
  function Push(codep: bv32, b: byte): bv32 { ((b as bv32) & 0x3F) | (codep << 6) }

  /** The first bits of the code point. */
  function Lead(b: byte): bv32 { LeadBits(Class(b)) & (b as bv32) }

  /** The decoder after every byte of s. */
  function Run(d: Decoder, s: seq<byte>): Decoder {
    if s == [] then d else Decode(Run(d, s[..|s| - 1]), s[|s| - 1])
  }

  // ---------- RFC 3629, section 4 ----------

  predicate Tail(b: byte) { 0x80 <= b <= 0xBF }

  /** UTF8-char of the ABNF. */
  predicate IsChar(c: seq<byte>) {
    (|c| == 1 && c[0] <= 0x7F)
    || (|c| == 2 && 0xC2 <= c[0] <= 0xDF && Tail(c[1]))
    || (|c| == 3 && Tail(c[2]) &&
        (|| (c[0] == 0xE0 && 0xA0 <= c[1] <= 0xBF)
         || (0xE1 <= c[0] <= 0xEC && Tail(c[1]))
         || (c[0] == 0xED && 0x80 <= c[1] <= 0x9F)
         || (0xEE <= c[0] <= 0xEF && Tail(c[1]))))
    || (|c| == 4 && Tail(c[2]) && Tail(c[3]) &&
        (|| (c[0] == 0xF0 && 0x90 <= c[1] <= 0xBF)
         || (0xF1 <= c[0] <= 0xF3 && Tail(c[1]))
         || (c[0] == 0xF4 && 0x80 <= c[1] <= 0x8F)))
  }

  /** UTF8-octets: a concatenation of characters. */
  ghost predicate WellFormed(s: seq<byte>)
    decreases |s|
  {
    s == [] || exists k :: 1 <= k <= 4 && k <= |s| && IsChar(s[..k]) && WellFormed(s[k..])
  }

  // ---------- what each state still waits for ----------

  predicate Known(state: nat) { state in [0, 12, 24, 36, 48, 60, 72, 84, 96] }

  /** The bytes t finish the character that led to this state. */
  predicate Finishes(state: nat, t: seq<byte>) {
    match state
    case 24 => |t| == 1 && Tail(t[0])
    case 36 => |t| == 2 && Tail(t[0]) && Tail(t[1])
    case 48 => |t| == 2 && 0xA0 <= t[0] <= 0xBF && Tail(t[1])
    case 60 => |t| == 2 && 0x80 <= t[0] <= 0x9F && Tail(t[1])
    case 72 => |t| == 3 && 0x90 <= t[0] <= 0xBF && Tail(t[1]) && Tail(t[2])
    case 84 => |t| == 3 && Tail(t[0]) && Tail(t[1]) && Tail(t[2])
    case 96 => |t| == 3 && 0x80 <= t[0] <= 0x8F && Tail(t[1]) && Tail(t[2])
    case _ => false
  }

  /** The rows of the table, read as byte ranges. */
  lemma TailRows(b: byte)
    ensures Next(24, b) == if Tail(b) then 0 else 12
    ensures Next(36, b) == if Tail(b) then 24 else 12
    ensures Next(48, b) == if 0xA0 <= b <= 0xBF then 24 else 12
    ensures Next(60, b) == if 0x80 <= b <= 0x9F then 24 else 12
    ensures Next(72, b) == if 0x90 <= b <= 0xBF then 36 else 12
    ensures Next(84, b) == if Tail(b) then 36 else 12
    ensures Next(96, b) == if 0x80 <= b <= 0x8F then 36 else 12
    ensures Next(12, b) == 12
  {
  }

  lemma LeadRow(b: byte)
    ensures Next(0, b) == if b <= 0x7F then 0 else if b < 0xC2 then 12 else if b <= 0xDF then 24
                          else if b == 0xE0 then 48 else if b == 0xED then 60 else if b <= 0xEF then 36
                          else if b == 0xF0 then 72 else if b <= 0xF3 then 84 else if b == 0xF4 then 96 else 12
  {
  }

  /** A leading byte moves to the state that waits for the rest of its character. */
  lemma LeadByte(s: seq<byte>)
    requires s != []
    ensures var q := Next(0, s[0]);
            Known(q) && (IsChar(s) <==> if q == 0 then |s| == 1 else Finishes(q, s[1..]))
  {
    hide Next;
    LeadRow(s[0]);
  }

  lemma TailByte(state: nat, s: seq<byte>)
    requires Known(state) && state != 0 && s != []
    ensures var q := Next(state, s[0]);
            Known(q) && (Finishes(state, s) <==> if q == 0 then |s| == 1 else Finishes(q, s[1..]))
  {
    hide Next;
    TailRows(s[0]);
  }

  /** s finishes the open character, if there is one, and goes on with whole characters. */
  ghost predicate Ends(state: nat, s: seq<byte>) {
    if state == 0 then WellFormed(s)
    else exists k :: 1 <= k <= 3 && k <= |s| && Finishes(state, s[..k]) && WellFormed(s[k..])
  }

  /** Reading one byte turns the question into the same question about the rest. */
  lemma EndsStep(state: nat, s: seq<byte>)
    requires Known(state) && s != []
    ensures Known(Next(state, s[0])) && (Ends(state, s) <==> Ends(Next(state, s[0]), s[1..]))
  {
    hide Next, IsChar, Finishes, WellFormed, Known;
    if state == 0 {
      LeadStep(s);
    } else {
      TailStep(state, s);
    }
  }

  lemma FirstChar(s: seq<byte>) returns (k: nat)
    requires WellFormed(s) && s != []
    ensures 1 <= k <= 4 && k <= |s| && IsChar(s[..k]) && WellFormed(s[k..])
  {
    hide IsChar;
    k :| 1 <= k <= 4 && k <= |s| && IsChar(s[..k]) && WellFormed(s[k..]);
  }

  lemma CharFirst(s: seq<byte>, k: nat)
    requires 1 <= k <= 4 && k <= |s| && IsChar(s[..k]) && WellFormed(s[k..])
    ensures WellFormed(s)
  {
    hide IsChar;
  }

  lemma LeadStep(s: seq<byte>)
    requires s != []
    ensures Known(Next(0, s[0])) && (WellFormed(s) <==> Ends(Next(0, s[0]), s[1..]))
  {
    hide Next, IsChar, Finishes, Known, WellFormed;
    var q := Next(0, s[0]);
    LeadByte(s);
    if WellFormed(s) {
      var k := FirstChar(s);
      LeadForth(s, k);
    }
    if Ends(q, s[1..]) {
      if q == 0 {
        LeadByte(s[..1]);
        CharFirst(s, 1);
      } else {
        LeadBack(s);
      }
    }
  }

  lemma LeadForth(s: seq<byte>, k: nat)
    requires 1 <= k <= 4 && k <= |s| && IsChar(s[..k]) && WellFormed(s[k..])
    ensures Ends(Next(0, s[0]), s[1..])
  {
    hide Next, IsChar, Finishes, Known, WellFormed;
    LeadByte(s[..k]);
    NothingFinishes(Next(0, s[0]));
    Shift(s, k);
  }

  lemma LeadBack(s: seq<byte>)
    requires s != [] && Next(0, s[0]) != 0 && Ends(Next(0, s[0]), s[1..])
    ensures WellFormed(s)
  {
    hide Next, IsChar, Finishes, Known, WellFormed;
    var q := Next(0, s[0]);
    var k :| 1 <= k <= 3 && k <= |s[1..]| && Finishes(q, s[1..][..k]) && WellFormed(s[1..][k..]);
    LeadByte(s[..k + 1]);
    Shift(s, k + 1);
    CharFirst(s, k + 1);
  }

  lemma TailStep(state: nat, s: seq<byte>)
    requires Known(state) && state != 0 && s != []
    ensures Known(Next(state, s[0])) && (Ends(state, s) <==> Ends(Next(state, s[0]), s[1..]))
  {
    hide Next, IsChar, Finishes, WellFormed, Known;
    var q := Next(state, s[0]);
    TailByte(state, s);
    if Ends(state, s) {
      var k :| 1 <= k <= 3 && k <= |s| && Finishes(state, s[..k]) && WellFormed(s[k..]);
      TailForth(state, s, k);
    }
    if Ends(q, s[1..]) {
      if q == 0 {
        TailByte(state, s[..1]);
        assert Finishes(state, s[..1]) && WellFormed(s[1..]);
      } else {
        TailBack(state, s);
      }
    }
  }

  lemma TailForth(state: nat, s: seq<byte>, k: nat)
    requires Known(state) && state != 0
    requires 1 <= k <= 3 && k <= |s| && Finishes(state, s[..k]) && WellFormed(s[k..])
    ensures Ends(Next(state, s[0]), s[1..])
  {
    hide Next, IsChar, Finishes, Known, WellFormed;
    TailByte(state, s[..k]);
    NothingFinishes(Next(state, s[0]));
    Shift(s, k);
  }

  lemma TailBack(state: nat, s: seq<byte>)
    requires Known(state) && state != 0
    requires s != [] && Next(state, s[0]) != 0 && Ends(Next(state, s[0]), s[1..])
    ensures Ends(state, s)
  {
    hide Next, IsChar, Finishes, Known, WellFormed;
    var q := Next(state, s[0]);
    var k :| 1 <= k <= 3 && k <= |s[1..]| && Finishes(q, s[1..][..k]) && WellFormed(s[1..][k..]);
    TailByte(state, s[..k + 1]);
    Shift(s, k + 1);
    LongestTail(state, s[..k + 1]);
    assert Finishes(state, s[..k + 1]) && WellFormed(s[k + 1..]);
  }

  lemma NothingFinishes(q: nat)
    ensures !Finishes(q, [])
  {
  }

  lemma LongestTail(q: nat, t: seq<byte>)
    ensures Finishes(q, t) ==> |t| <= 3
  {
  }

  lemma Shift(s: seq<byte>, k: nat)
    requires 1 <= k <= |s|
    ensures s[..k][1..] == s[1..][..k - 1] && s[k..] == s[1..][k - 1..] && (s[..k] != [] && s[..k][0] == s[0])
  {
  }

  // ---------- the automaton decides UTF-8 ----------

  /** Running on in pieces is running at once. */
  lemma {:induction false} RunConcat(d: Decoder, s: seq<byte>, t: seq<byte>)
    ensures Run(d, s + t) == Run(Run(d, s), t)
  {
    hide Decode;
    if t == [] {
      assert s + t == s;
    } else {
      var u := t[..|t| - 1];
      RunConcat(d, s, u);
      assert (s + t)[..|s + t| - 1] == s + u;
    }
  }

  lemma RunFirst(d: Decoder, s: seq<byte>)
    requires s != []
    ensures Run(d, s) == Run(Decode(d, s[0]), s[1..])
  {
    hide Decode;
    RunConcat(d, s[..1], s[1..]);
    assert s == s[..1] + s[1..];
    assert s[..1][..0] == [];
    assert Run(d, s[..1]) == Decode(Run(d, []), s[0]);
  }

  lemma {:induction false} RunEnds(d: Decoder, s: seq<byte>)
    requires Known(d.state)
    ensures Known(Run(d, s).state)
    ensures Run(d, s).state == Accept <==> Ends(d.state, s)
    decreases |s|
  {
    hide Next, Ends, Known;
    if s == [] {
      EndsNow(d.state);
    } else {
      RunFirst(d, s);
      EndsStep(d.state, s[0..]);
      assert s[0..] == s;
      RunEnds(Decode(d, s[0]), s[1..]);
    }
  }

  lemma EndsNow(state: nat)
    ensures Ends(state, []) <==> state == 0
  {
  }

  /** From state 0 a byte sequence ends in state 0 iff it is a concatenation of RFC 3629 characters. */
  lemma AutomatonDecidesUtf8(s: seq<byte>)
    ensures Run(Start, s).state == Accept <==> WellFormed(s)
  {
    hide WellFormed, Run;
    RunEnds(Start, s);
  }

  lemma {:induction false} RejectStays(d: Decoder, s: seq<byte>)
    requires d.state == Reject
    ensures Run(d, s).state == Reject
  {
    if s != [] {
      RejectStays(d, s[..|s| - 1]);
      TailRows(s[|s| - 1]);
      hide Next;
    }
  }

  /** A shortest way to finish the open character. */
  function Completion(state: nat): seq<byte> {
    match state
    case 24 => [0x80]
    case 36 => [0x80, 0x80]
    case 48 => [0xA0, 0x80]
    case 60 => [0x80, 0x80]
    case 72 => [0x90, 0x80, 0x80]
    case 84 => [0x80, 0x80, 0x80]
    case 96 => [0x80, 0x80, 0x80]
    case _ => []
  }

  lemma CompletionEnds(state: nat)
    requires Known(state) && state != Reject
    ensures Ends(state, Completion(state))
  {
    var t := Completion(state);
    if state != 0 {
      assert Finishes(state, t);
      assert t[..|t|] == t && WellFormed(t[|t|..]);
    }
  }

  /** It ends in the reject state iff nothing that could follow makes it valid. */
  lemma AutomatonRejectsTheHopeless(s: seq<byte>)
    ensures Run(Start, s).state == Reject <==> forall t :: !WellFormed(s + t)
  {
    hide WellFormed, Run, Ends, Completion;
    var d := Run(Start, s);
    RunEnds(Start, s);
    if d.state == Reject {
      forall t
        ensures !WellFormed(s + t)
      {
        RunConcat(Start, s, t);
        RejectStays(d, t);
        AutomatonDecidesUtf8(s + t);
      }
    } else {
      var t := Completion(d.state);
      CompletionEnds(d.state);
      RunEnds(d, t);
      RunConcat(Start, s, t);
      AutomatonDecidesUtf8(s + t);
    }
  }
}
