/** JSON-RPC messages, their ids, and the one-slot channels that carry replies. */
module Messages {
  import opened Wrappers

  /** Ids by who issued them, counted from zero. */
  datatype Id = Cli(n: nat) | Srv(n: nat)

  type Body = string

  datatype Msg =
    | Request(id: Id, body: Body)
    | Notice(body: Body)
    | Response(id: Id, body: Body)

  /** A Go channel with room for one value; sends and closes count what was done to it. */
  datatype Chan<T> = Chan(buf: Option<T>, closed: bool, sends: nat, closes: nat)

  function NewChan<T>(): (c: Chan<T>) {
    Chan(None, false, 0, 0)
  }

  /** A send neither panics nor blocks. */
  predicate CanSend<T>(c: Chan<T>) {
    !c.closed && c.buf.None?
  }

  function Sent<T>(c: Chan<T>, x: T): (r: Chan<T>)
    requires CanSend(c)
  {
    c.(buf := Some(x), sends := c.sends + 1)
  }

  function Received<T>(c: Chan<T>): (r: Chan<T>)
  {
    c.(buf := None)
  }

  function Closed<T>(c: Chan<T>): (r: Chan<T>)
    requires !c.closed
  {
    c.(closed := true, closes := c.closes + 1)
  }

  // ---- Ids as text ----

  function Decimal(n: nat): (s: string)
    ensures |s| > 0 && forall i :: 0 <= i < |s| ==> '0' <= s[i] <= '9'
  {
    if n < 10 then [Digit(n)] else Decimal(n / 10) + [Digit(n % 10)]
  }

  function Digit(n: nat): (c: char)
    requires n < 10
    ensures '0' <= c <= '9'
  {
    '0' + n as char
  }

  /** The raw JSON of an id: a number from the client's counter, a "srv-N" string from the session's. */
  function Text(id: Id): (s: string) {
    match id
    case Cli(n) => Decimal(n + 1)
    case Srv(n) => "\"srv-" + Decimal(n + 1) + "\""
  }

  lemma {:induction false} DecimalInjective(a: nat, b: nat)
    ensures Decimal(a) == Decimal(b) ==> a == b
  {
    if a >= 10 && b >= 10 {
      var x, y := Decimal(a / 10), Decimal(b / 10);
      assert Decimal(a) == x + [Digit(a % 10)] && Decimal(b) == y + [Digit(b % 10)];
      DecimalInjective(a / 10, b / 10);
      if x + [Digit(a % 10)] == y + [Digit(b % 10)] {
        assert |x| == |y|;
        assert x == (x + [Digit(a % 10)])[..|x|] && y == (y + [Digit(b % 10)])[..|x|];
        assert Digit(a % 10) == (x + [Digit(a % 10)])[|x|] && Digit(b % 10) == (y + [Digit(b % 10)])[|x|];
      }
    } else if a >= 10 {
      assert |Decimal(a)| > |Decimal(b)|;
    } else if b >= 10 {
      assert |Decimal(b)| > |Decimal(a)|;
    }
  }

  /** Keying the pending maps by text is keying them by id. */
  lemma TextInjective(a: Id, b: Id)
    ensures Text(a) == Text(b) <==> a == b
  {
    match (a, b)
    case (Cli(m), Cli(n)) => DecimalInjective(m + 1, n + 1);
    case (Srv(m), Srv(n)) =>
      var x, y := Decimal(m + 1), Decimal(n + 1);
      assert Text(a)[5..|Text(a)| - 1] == x && Text(b)[5..|Text(b)| - 1] == y;
      DecimalInjective(m + 1, n + 1);
    case (Cli(m), Srv(n)) => assert Text(a)[0] != Text(b)[0];
    case (Srv(m), Cli(n)) => assert Text(a)[0] != Text(b)[0];
  }
}
