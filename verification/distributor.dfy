/** The client (distributed/gol/distributor.go): listing the live cells of a grid,
    naming the image files, and the pause toggle of the key handler. */
module Distributor {
  import opened Grid
  import Broker
  import Stubs

  /** The run parameters the client reads its grid size and turn count from. */
  datatype Params = Params(Turns: int, Threads: int, ImageWidth: int, ImageHeight: int)

  /** Lists the live cells of the `ImageHeight x ImageWidth` image, row by row. */
  method CalculateAliveCells(p: Params, world: Grid) returns (alive: seq<Cell>)
    requires Covers(world, p.ImageHeight, p.ImageWidth)
    ensures forall c :: c in alive <==> 0 <= c.y < p.ImageHeight && 0 <= c.x < p.ImageWidth && world[c.y][c.x] == ALIVE
    ensures RowMajor(alive)
    ensures |alive| == |AliveSet(world, p.ImageHeight, p.ImageWidth)|
    ensures |alive| <= (if p.ImageHeight < 0 then 0 else p.ImageHeight) * (if p.ImageWidth < 0 then 0 else p.ImageWidth)
    ensures alive == AliveCells(world, p.ImageHeight, p.ImageWidth)
  {
    alive := [];
    var y := 0;
    while y < p.ImageHeight
      invariant 0 <= y <= if p.ImageHeight < 0 then 0 else p.ImageHeight
      invariant alive == AliveCells(world, y, p.ImageWidth)
    {
      var x := 0;
      while x < p.ImageWidth
        invariant 0 <= x <= if p.ImageWidth < 0 then 0 else p.ImageWidth
        invariant alive == AliveCells(world, y, p.ImageWidth) + AliveInRow(world, y, x)
      {
        if world[y][x] == ALIVE {
          alive := alive + [Cell(x, y)];
        }
        x := x + 1;
      }
      y := y + 1;
    }
    forall c {
      AliveCellsMembers(world, p.ImageHeight, p.ImageWidth, c);
    }
    AliveCellsOrdered(world, p.ImageHeight, p.ImageWidth);
    AliveCellsBound(world, p.ImageHeight, p.ImageWidth);
    AliveCountIsCardinality(world, p.ImageHeight, p.ImageWidth);
  }

  /** The client's list of live cells and the broker's ticker count agree on the
      same grid and bounds. */
  method AliveCountsAgree(p: Params, broker: Broker.BrokerState) returns (listed: seq<Cell>, counted: Stubs.TickerResponse)
    requires Covers(broker.world, p.ImageHeight, p.ImageWidth)
    ensures |listed| == counted.AliveCells
    ensures counted.Turn == broker.CompletedTurns
  {
    counted := broker.CalculateAliveCells(Stubs.TickerRequest(p.ImageHeight, p.ImageWidth));
    listed := CalculateAliveCells(p, broker.world);
  }

  // Decimal text of integers, as fmt.Sprint writes an int.

  function DigitChar(d: int): char
    requires 0 <= d < 10
  {
    ('0' as int + d) as char
  }

  function DigitValue(c: char): int
  {
    c as int - '0' as int
  }

  predicate IsDigit(c: char)
  {
    '0' <= c <= '9'
  }

  /** Decimal digits of `n`, most significant first, without leading zeros. */
  function Digits(n: nat): (s: string)
    ensures 1 <= |s| && forall i :: 0 <= i < |s| ==> IsDigit(s[i])
    decreases n
  {
    if n < 10 then [DigitChar(n)] else Digits(n / 10) + [DigitChar(n % 10)]
  }

  /** fmt.Sprint of an int: a minus sign for negative values, then the digits. */
  function Sprint(n: int): string
  {
    if n < 0 then "-" + Digits(-n) else Digits(n)
  }

  /** Reads decimal digits back (the inverse of Digits). */
  function ParseDigits(s: string): int
  {
    if s == [] then 0 else ParseDigits(s[..|s| - 1]) * 10 + DigitValue(s[|s| - 1])
  }

  /** Reads an optionally signed decimal integer back (the inverse of Sprint). */
  function ParseInt(s: string): int
  {
    if |s| > 0 && s[0] == '-' then -ParseDigits(s[1..]) else ParseDigits(s)
  }

  lemma {:induction false} DigitsRoundTrip(n: nat)
    ensures ParseDigits(Digits(n)) == n
    decreases n
  {
    if n >= 10 {
      DigitsRoundTrip(n / 10);
      var s := Digits(n);
      assert s[..|s| - 1] == Digits(n / 10);
    }
  }

  /** Reading back the text of an integer gives the integer. */
  lemma SprintRoundTrip(n: int)
    ensures ParseInt(Sprint(n)) == n
    ensures 'x' !in Sprint(n)
  {
    if n < 0 {
      DigitsRoundTrip(-n);
      assert Sprint(n)[1..] == Digits(-n);
    } else {
      DigitsRoundTrip(n);
      assert IsDigit(Sprint(n)[0]);
    }
  }

  // Splitting a file name at its separators.

  function IndexOf(s: string, c: char): (i: nat)
    requires c in s
    ensures i < |s| && s[i] == c && c !in s[..i]
  {
    if s[0] == c then 0 else 1 + IndexOf(s[1..], c)
  }

  /** The pieces of `s` between occurrences of `sep`. */
  function Split(s: string, sep: char): seq<string>
    decreases |s|
  {
    if sep !in s then [s] else [s[..IndexOf(s, sep)]] + Split(s[IndexOf(s, sep) + 1..], sep)
  }

  lemma SplitAtFirst(a: string, sep: char, rest: string)
    requires sep !in a
    ensures Split(a + [sep] + rest, sep) == [a] + Split(rest, sep)
  {
    var s := a + [sep] + rest;
    assert s[|a|] == sep;
    assert s[..|a|] == a;
    var i := IndexOf(s, sep);
    assert s[..i] == a;
    assert s[i + 1..] == rest;
  }

  /** The integers a file name is made of. */
  function ParseFilename(name: string): seq<int>
  {
    var parts := Split(name, 'x');
    seq(|parts|, i requires 0 <= i < |parts| => ParseInt(parts[i]))
  }

  lemma FilenameParts2(sa: string, sb: string)
    requires 'x' !in sa && 'x' !in sb
    ensures Split(sa + "x" + sb, 'x') == [sa, sb]
  {
    assert sa + "x" + sb == sa + ['x'] + sb;
    SplitAtFirst(sa, 'x', sb);
  }

  lemma FilenameParts3(sa: string, sb: string, sc: string)
    requires 'x' !in sa && 'x' !in sb && 'x' !in sc
    ensures Split(sa + "x" + sb + "x" + sc, 'x') == [sa, sb, sc]
  {
    assert sa + "x" + sb + "x" + sc == sa + ['x'] + (sb + "x" + sc);
    SplitAtFirst(sa, 'x', sb + "x" + sc);
    FilenameParts2(sb, sc);
  }

  /** The name of an output image: height, width and turn, in decimal, joined by 'x';
      the three numbers can be read back from it. */
  function OutputFilename(p: Params, turn: int): (name: string)
    ensures Split(name, 'x') == [Sprint(p.ImageHeight), Sprint(p.ImageWidth), Sprint(turn)]
    ensures ParseFilename(name) == [p.ImageHeight, p.ImageWidth, turn]
  {
    SprintRoundTrip(p.ImageHeight);
    SprintRoundTrip(p.ImageWidth);
    SprintRoundTrip(turn);
    FilenameParts3(Sprint(p.ImageHeight), Sprint(p.ImageWidth), Sprint(turn));
    Sprint(p.ImageHeight) + "x" + Sprint(p.ImageWidth) + "x" + Sprint(turn)
  }

  /** The name of the input image: height and width, in decimal, joined by 'x'. */
  function InputFilename(p: Params): (name: string)
    ensures Split(name, 'x') == [Sprint(p.ImageHeight), Sprint(p.ImageWidth)]
    ensures ParseFilename(name) == [p.ImageHeight, p.ImageWidth]
  {
    SprintRoundTrip(p.ImageHeight);
    SprintRoundTrip(p.ImageWidth);
    FilenameParts2(Sprint(p.ImageHeight), Sprint(p.ImageWidth));
    Sprint(p.ImageHeight) + "x" + Sprint(p.ImageWidth)
  }

  // The pause toggle.

  datatype ControlRequest = Pause | Play

  /** The requests `k` presses of 'p' send, starting from pause state `paused`. */
  function Toggles(paused: bool, k: nat): seq<ControlRequest>
    decreases k
  {
    if k == 0 then [] else [if paused then Play else Pause] + Toggles(!paused, k - 1)
  }

  /** The pause state after `k` toggles. */
  function Flip(paused: bool, k: nat): bool
  {
    paused != (k % 2 == 1)
  }

  /** Presses of 'p' the key handler acts on: those before the first 'k' or 'q',
      which end the client. */
  function PPresses(keys: seq<char>): nat
  {
    if keys == [] || keys[0] == 'k' || keys[0] == 'q' then 0
    else (if keys[0] == 'p' then 1 else 0) + PPresses(keys[1..])
  }

  /** Successive toggles strictly alternate Pause and Play. */
  lemma {:induction false} TogglesAlternate(paused: bool, k: nat)
    ensures |Toggles(paused, k)| == k
    ensures forall i :: 0 <= i < k ==> Toggles(paused, k)[i] == (if (i % 2 == 0) != paused then Pause else Play)
    decreases k
  {
    if k > 0 {
      TogglesAlternate(!paused, k - 1);
      var t := Toggles(paused, k);
      forall i | 1 <= i < k
        ensures t[i] == (if (i % 2 == 0) != paused then Pause else Play)
      {
        assert t[i] == Toggles(!paused, k - 1)[i - 1];
      }
    }
  }

  /** The client's package state: the pause flag and the control requests sent to
      the broker so far. */
  class Client {
    var PausedCheck: bool
    var sent: seq<ControlRequest>

    constructor ()
      ensures !PausedCheck && sent == []
    {
      PausedCheck := false;
      sent := [];
    }

    /** Handles key presses in order: 'p' sends Pause when not paused and Play when
        paused, flipping PausedCheck; 'k' and 'q' end the client. */
    method KeyPress(keys: seq<char>)
      modifies this
      ensures sent == old(sent) + Toggles(old(PausedCheck), PPresses(keys))
      ensures PausedCheck == Flip(old(PausedCheck), PPresses(keys))
    {
      var i := 0;
      while i < |keys|
        invariant 0 <= i <= |keys|
        invariant sent + Toggles(PausedCheck, PPresses(keys[i..])) == old(sent) + Toggles(old(PausedCheck), PPresses(keys))
        invariant Flip(PausedCheck, PPresses(keys[i..])) == Flip(old(PausedCheck), PPresses(keys))
      {
        var key := keys[i];
        assert keys[i..][0] == key && keys[i..][1..] == keys[i + 1..];
        if key == 'k' || key == 'q' {
          break;
        }
        if key == 'p' {
          if PausedCheck == false {
            sent := sent + [Pause];
            PausedCheck := true;
          } else {
            sent := sent + [Play];
            PausedCheck := false;
          }
        }
        i := i + 1;
      }
      assert i == |keys| ==> keys[i..] == [];
    }
  }

  /** A freshly started client sends Pause, Play, Pause, ... for its 'p' presses. */
  method PausePlayAlternate(keys: seq<char>) returns (sent: seq<ControlRequest>)
    ensures |sent| == PPresses(keys)
    ensures forall i :: 0 <= i < |sent| ==> sent[i] == (if i % 2 == 0 then Pause else Play)
  {
    var client := new Client();
    client.KeyPress(keys);
    sent := client.sent;
    TogglesAlternate(false, PPresses(keys));
  }
}
