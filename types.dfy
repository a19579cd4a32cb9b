/** The room document and its parts, as the client and the server exchange them. */
module Types {

  datatype Option<+T> = None | Some(value: T)

  /** One card of the estimation scale; Coffee is the non-numeric "pass" card. */
  datatype FibonacciValue = Coffee | One | Two | Three | Five | Eight | Thirteen | TwentyOne

  datatype Group = G | F | B

  datatype Screen = Menu | Waiting | Voting | Reveal

  datatype Vote = Vote(userId: string, userName: string, group: Group, value: FibonacciValue, timestamp: int)

  datatype User = User(id: string, name: string, groups: seq<Group>, isAdmin: bool, isOnline: bool, lastSeen: int)

  datatype UserSubmission = UserSubmission(userId: string, userName: string, timestamp: int, hasVotes: bool)

  /** Only the task label may be missing from a stored room. */
  datatype RoomState = RoomState(
    code: string,
    currentScreen: Screen,
    users: seq<User>,
    votes: seq<Vote>,
    submissions: seq<UserSubmission>,
    adminId: string,
    createdAt: int,
    lastUpdated: int,
    currentTask: Option<string>)

  /** The text of a card, as it is stored and displayed. */
  function Token(v: FibonacciValue): (s: string)
    ensures |s| >= 1
  {
    match v
    case Coffee => "☕"
    case One => "1"
    case Two => "2"
    case Three => "3"
    case Five => "5"
    case Eight => "8"
    case Thirteen => "13"
    case TwentyOne => "21"
  }

  /** The card whose text is `s`, if any. */
  function ParseToken(s: string): (r: Option<FibonacciValue>)
    ensures r.Some? ==> Token(r.value) == s
  {
    if s == "☕" then Some(Coffee)
    else if s == "1" then Some(One)
    else if s == "2" then Some(Two)
    else if s == "3" then Some(Three)
    else if s == "5" then Some(Five)
    else if s == "8" then Some(Eight)
    else if s == "13" then Some(Thirteen)
    else if s == "21" then Some(TwentyOne)
    else None
  }

  lemma TokenRoundTrip(v: FibonacciValue)
    ensures ParseToken(Token(v)) == Some(v)
  {
  }

  /** Distinct cards have distinct texts. */
  lemma TokenInjective(v: FibonacciValue, w: FibonacciValue)
    requires Token(v) == Token(w)
    ensures v == w
  {
    TokenRoundTrip(v);
    TokenRoundTrip(w);
  }

  predicate IsDigit(c: char) { '0' <= c <= '9' }

  function DigitValue(c: char): (d: nat)
    requires IsDigit(c)
    ensures d < 10
  {
    (c as int) - ('0' as int)
  }

  /** Value of a non-empty string of decimal digits. */
  function ParseDigits(s: string): (n: nat)
    requires |s| >= 1 && forall i :: 0 <= i < |s| ==> IsDigit(s[i])
  {
    if |s| == 1 then DigitValue(s[0])
    else 10 * ParseDigits(s[..|s| - 1]) + DigitValue(s[|s| - 1])
  }

  /** The integer a numeric card stands for; None for the pass card. */
  function NumericValue(v: FibonacciValue): (n: Option<nat>)
    ensures n.None? <==> v == Coffee
    ensures n.Some? ==> 1 <= n.value <= 21
  {
    match v
    case Coffee => None
    case One => Some(1)
    case Two => Some(2)
    case Three => Some(3)
    case Five => Some(5)
    case Eight => Some(8)
    case Thirteen => Some(13)
    case TwentyOne => Some(21)
  }

  /** Every card other than the pass card is written as a positive decimal
      integer, and reading that text back gives the card's numeric value. */
  lemma NumericTokensAreIntegerLiterals(v: FibonacciValue)
    requires v != Coffee
    ensures forall i :: 0 <= i < |Token(v)| ==> IsDigit(Token(v)[i])
    ensures Token(v)[0] != '0'
    ensures ParseDigits(Token(v)) == NumericValue(v).value
  {
    match v
    case One =>
    case Two =>
    case Three =>
    case Five =>
    case Eight =>
    case Thirteen =>
      assert Token(v)[..1] == "1";
    case TwentyOne =>
      assert Token(v)[..1] == "2";
  }
}
