/** The game state of the trivia server (server_RON.c): the fixed table of
    client entries with its counter and the `game_started` flag, admission
    from the accept loop, the one-shot authentication check, scoring of
    answers, the keepalive sweep, the lobby close and the formatting of the
    question broadcasts.

    Each step is one atomic method; the threads that run them concurrently,
    the sockets and the sleeps are not part of this model.  Time is whole
    seconds, as returned by `time(NULL)`. */
module TriviaServer {
  import opened Protocol
  import opened CStrings

  const MaxClients: nat := 10
  const KeepaliveTimeout: int := 10
  const QuestionCount: nat := 6

  /** The size of the `q_text` buffer the questions are formatted into. */
  const QuestionBufferSize: nat := 512

  /** One entry of the client table.  `addr` stands for the peer address,
      which is only ever printed. */
  datatype Client = Client(
    socket: int,
    addr: int,
    verified: bool,
    score: nat,
    authCode: int,
    lastKeepalive: int)

  /** A table entry before any connection used it: the zero-initialised global. */
  const Unused: Client := Client(0, 0, false, 0, 0, 0)

  const InvalidCode: Text := "Invalid code."
  const Welcome: Text := "Welcome to the trivia game!"

  /** The `questions` table, one entry per constant. */
  const Capital := TriviaQuestion("Capital of France?", ["Berlin", "Madrid", "Paris", "Rome"], 2)
  const RedPlanet := TriviaQuestion("Red Planet?", ["Earth", "Mars", "Jupiter", "Saturn"], 1)
  const Product := TriviaQuestion("5 * 6?", ["11", "30", "56", "20"], 1)
  const Language := TriviaQuestion("Project language?", ["Python", "C", "Java", "Rust"], 1)
  const MonaLisa := TriviaQuestion("Mona Lisa?", ["Da Vinci", "Van Gogh", "Picasso", "Rembrandt"], 0)
  const Ocean := TriviaQuestion("Largest ocean?", ["Atlantic", "Indian", "Pacific", "Arctic"], 2)

  const Catalogue: seq<TriviaQuestion> := [Capital, RedPlanet, Product, Language, MonaLisa, Ocean]

  /** Every question fits its record's buffers and names one of its four
      options as correct. */
  lemma CatalogueWellFormed()
    ensures |Catalogue| == QuestionCount
    ensures forall i :: 0 <= i < QuestionCount ==>
      Fits(Catalogue[i]) && 0 <= Catalogue[i].correctIndex < 4
  {
    QuestionFits(Capital);
    QuestionFits(RedPlanet);
    QuestionFits(Product);
    QuestionFits(Language);
    QuestionFits(MonaLisa);
    QuestionFits(Ocean);
  }

  /** The buffer bounds of one record, checked field by field. */
  lemma QuestionFits(q: TriviaQuestion)
    requires |q.question| < 256 && |q.options| == 4
    requires |q.options[0]| < 128 && |q.options[1]| < 128
    requires |q.options[2]| < 128 && |q.options[3]| < 128
    ensures Fits(q)
  {
  }

  // ---------------------------------------------------------------------
  // Authentication

  /** `rand() % 9000 + 1000`, for a non-negative `rand()` value: a
      four-digit code, sent as four characters. */
  function AuthCodeOf(r: nat): (code: int)
    ensures 1000 <= code <= 9999
    ensures |Decimal(code)| == 4
  {
    FourDigits(r % 9000 + 1000);
    r % 9000 + 1000
  }

  /** The one-shot check: the reply must be an AUTH_REPLY whose payload
      starts with the code, as `atoi` reads it. */
  predicate AuthAccepts(reply: Message, code: int) {
    reply.msgType == Code(AuthReply) && Atoi(reply.payload) == code
  }

  /** A client that types back the code it was sent, followed by anything
      that does not start with a digit (a `|nickname`, say), is accepted. */
  lemma CodeReplyAccepted(code: nat, qid: uint8, suffix: Text)
    requires suffix == [] || !IsDigit(suffix[0])
    ensures AuthAccepts(Message(Code(AuthReply), qid, Decimal(code) + suffix), code)
  {
    AtoiDecimal(code, suffix);
  }

  /** Any other number is refused, and so is a reply of another type. */
  lemma OtherReplyRefused(code: int, typed: nat, t: uint8, qid: uint8, suffix: Text)
    requires suffix == [] || !IsDigit(suffix[0])
    requires typed != code || t != Code(AuthReply)
    ensures !AuthAccepts(Message(t, qid, Decimal(typed) + suffix), code)
  {
    AtoiDecimal(typed, suffix);
  }

  /** An empty reply reads as 0, which no generated code equals. */
  lemma EmptyReplyRefused(r: nat, qid: uint8)
    ensures !AuthAccepts(Message(Code(AuthReply), qid, []), AuthCodeOf(r))
  {
    assert SkipSpaces([]) == [] && LeadingDigits([]) == [];
  }

  /** Code 4821 answered with "4821|Alice" is accepted. */
  lemma AuthExample()
    ensures AuthAccepts(Message(Code(AuthReply), 0, "4821|Alice"), 4821)
  {
    assert Decimal(4) == "4";
    assert Decimal(48) == "48";
    assert Decimal(482) == "482";
    assert Decimal(4821) == "4821";
    assert "4821|Alice" == Decimal(4821) + "|Alice";
    CodeReplyAccepted(4821, 0, "|Alice");
  }

  // ---------------------------------------------------------------------
  // Messages after authentication

  /** An answer `ans` to question `qid` scores when the question exists and
      `ans` is the 1-based number of its correct option. */
  predicate IsCorrectAnswer(qid: int, ans: int) {
    0 <= qid < QuestionCount && ans == Catalogue[qid].correctIndex + 1
  }

  /** A message that raises the score: a correct ANSWER. */
  predicate Scores(m: Message) {
    m.msgType == Code(Answer) && IsCorrectAnswer(m.questionId, Atoi(m.payload))
  }

  /** Typing option number `k` scores exactly when `k` is the number printed
      before the correct option. */
  lemma ChoiceScores(qid: uint8, k: nat, suffix: Text)
    requires qid < QuestionCount
    requires suffix == [] || !IsDigit(suffix[0])
    ensures Scores(Message(Code(Answer), qid, Decimal(k) + suffix))
            <==> k == Catalogue[qid].correctIndex + 1
  {
    AtoiDecimal(k, suffix);
  }

  /** Only numbers 1 to 4 ever score; in particular the "0" a client sends
      when its answer window runs out never does. */
  lemma TimeoutSentinelNeverScores(qid: int, ans: int)
    ensures IsCorrectAnswer(qid, ans) ==> 1 <= ans <= 4
    ensures !IsCorrectAnswer(qid, Atoi("0"))
  {
    CatalogueWellFormed();
    assert "0" == Decimal(0) + [];
    AtoiDecimal(0, []);
  }

  /** The effect of one message on the entry of the client that sent it:
      a KEEPALIVE refreshes the timestamp, a correct ANSWER adds one point,
      anything else changes nothing. */
  function Received(c: Client, m: Message, now: int): (r: Client)
    ensures r.(score := c.score, lastKeepalive := c.lastKeepalive) == c
    ensures r.score == c.score + (if Scores(m) then 1 else 0)
    ensures r.lastKeepalive == if m.msgType == Code(Keepalive) then now else c.lastKeepalive
  {
    if m.msgType == Code(Keepalive) then c.(lastKeepalive := now)
    else if m.msgType == Code(Answer) && IsCorrectAnswer(m.questionId, Atoi(m.payload)) then
      c.(score := c.score + 1)
    else c
  }

  /** A message together with the time it was received. */
  datatype Arrival = Arrival(msg: Message, at: int)

  /** The entry after the handler has processed `arrivals` in order. */
  function ReceiveAll(c: Client, arrivals: seq<Arrival>): Client
    decreases |arrivals|
  {
    if arrivals == [] then c
    else
      var last := arrivals[|arrivals| - 1];
      Received(ReceiveAll(c, arrivals[..|arrivals| - 1]), last.msg, last.at)
  }

  /** The number of correct answers among `arrivals`. */
  function CorrectAnswers(arrivals: seq<Arrival>): nat
    decreases |arrivals|
  {
    if arrivals == [] then 0
    else CorrectAnswers(arrivals[..|arrivals| - 1])
         + (if Scores(arrivals[|arrivals| - 1].msg) then 1 else 0)
  }

  /** After any run of messages the score has risen by exactly the number of
      correct answers among them, and nothing but the score and the
      keepalive time has changed. */
  lemma {:induction false} ScoreCountsCorrectAnswers(c: Client, arrivals: seq<Arrival>)
    ensures ReceiveAll(c, arrivals).score == c.score + CorrectAnswers(arrivals)
    ensures ReceiveAll(c, arrivals).(score := c.score, lastKeepalive := c.lastKeepalive) == c
    decreases |arrivals|
  {
    if arrivals != [] {
      ScoreCountsCorrectAnswers(c, arrivals[..|arrivals| - 1]);
    }
  }

  /** No per-question deduplication: the same correct answer sent twice
      scores twice. */
  lemma RepeatedAnswerScoresTwice(c: Client, m: Message, t1: int, t2: int)
    requires Scores(m)
    ensures ReceiveAll(c, [Arrival(m, t1), Arrival(m, t2)]).score == c.score + 2
  {
    var arrivals := [Arrival(m, t1), Arrival(m, t2)];
    assert arrivals[..1] == [Arrival(m, t1)];
    assert arrivals[..1][..0] == [];
    assert ReceiveAll(c, []) == c;
    assert ReceiveAll(c, arrivals[..1]).score == c.score + 1;
  }

  /** The whole of `handle_client` for one entry: draw the code, check the
      single reply and, once accepted, process `arrivals` until the peer
      closes.  A refused client keeps its entry, unverified. */
  function Handled(c: Client, r: nat, reply: Message, arrivals: seq<Arrival>): Client {
    var issued := c.(authCode := AuthCodeOf(r));
    if AuthAccepts(reply, issued.authCode) then ReceiveAll(issued.(verified := true), arrivals)
    else issued
  }

  /** A handler verifies its client exactly when the reply carries the
      code, and then adds one point per correct answer; otherwise the
      score does not move. */
  lemma HandledOutcome(c: Client, r: nat, reply: Message, arrivals: seq<Arrival>)
    ensures var h := Handled(c, r, reply, arrivals);
      && h.authCode == AuthCodeOf(r)
      && h.verified == (c.verified || AuthAccepts(reply, AuthCodeOf(r)))
      && h.score == c.score + (if AuthAccepts(reply, AuthCodeOf(r)) then CorrectAnswers(arrivals) else 0)
      && h.socket == c.socket
  {
    var issued := c.(authCode := AuthCodeOf(r));
    ScoreCountsCorrectAnswers(issued.(verified := true), arrivals);
  }

  // ---------------------------------------------------------------------
  // Keepalive sweep

  /** A verified entry whose last keepalive is more than the timeout ago. */
  predicate Expired(c: Client, now: int) {
    c.verified && now - c.lastKeepalive > KeepaliveTimeout
  }

  /** The table after one sweep over its first `n` entries at time `now`. */
  function Swept(cs: seq<Client>, n: int, now: int): (r: seq<Client>)
    ensures |r| == |cs|
  {
    seq(|cs|, k requires 0 <= k < |cs| =>
      if k < n && Expired(cs[k], now) then cs[k].(verified := false) else cs[k])
  }

  /** A sweep unverifies exactly the stale verified entries below `n` and
      changes nothing else, scores included. */
  lemma SweepEvictsExactlyStale(cs: seq<Client>, n: int, now: int, k: int)
    requires 0 <= k < |cs|
    ensures Swept(cs, n, now)[k].verified
            <==> cs[k].verified && (k >= n || now - cs[k].lastKeepalive <= KeepaliveTimeout)
    ensures Swept(cs, n, now)[k].(verified := cs[k].verified) == cs[k]
  {
  }

  /** An entry exactly `KeepaliveTimeout` seconds quiet survives the sweep;
      one second more and it is unverified. */
  lemma SweepBoundary(c: Client, now: int)
    requires c.verified
    ensures Swept([c.(lastKeepalive := now - KeepaliveTimeout)], 1, now)[0].verified
    ensures !Swept([c.(lastKeepalive := now - KeepaliveTimeout - 1)], 1, now)[0].verified
  {
  }

  /** A second sweep at the same time changes nothing. */
  lemma SweepIdempotent(cs: seq<Client>, n: int, now: int)
    ensures Swept(Swept(cs, n, now), n, now) == Swept(cs, n, now)
  {
  }

  // ---------------------------------------------------------------------
  // Question broadcast

  /** `snprintf` into a buffer of `size` bytes keeps at most `size - 1`
      characters of the formatted text. */
  function Truncated(s: Text, size: nat): (r: Text)
    requires size >= 1
    ensures r <= s && |r| < size
    ensures |s| < size ==> r == s
    ensures |s| >= size ==> |r| == size - 1
  {
    if |s| < size then s else s[..size - 1]
  }

  /** The format "%s\n1. %s\n2. %s\n3. %s\n4. %s" applied to a question. */
  function QuestionText(q: TriviaQuestion): Text
    requires |q.options| == 4
  {
    q.question + "\n1. " + q.options[0] + "\n2. " + q.options[1]
               + "\n3. " + q.options[2] + "\n4. " + q.options[3]
  }

  /** The line presenting option `k` (counted from 0) under the number a
      player types to choose it. */
  function OptionLine(k: nat, option: Text): Text {
    "\n" + Decimal(k + 1) + ". " + option
  }

  /** The option lines for `options`, numbered from `from`. */
  function Listing(options: seq<Text>, from: nat): Text
    decreases |options|
  {
    if options == [] then [] else OptionLine(from, options[0]) + Listing(options[1..], from + 1)
  }

  /** The formatted question is its text followed by one line per option,
      each under the number that `atoi` reads back as that option's choice. */
  lemma {:induction false} QuestionTextListsOptions(q: TriviaQuestion)
    requires |q.options| == 4
    ensures QuestionText(q) == q.question + Listing(q.options, 0)
  {
    var o := q.options;
    ListingOfFour(o);
    OptionLinesSmall(o);
    var a, b, c, d := "\n1. " + o[0], "\n2. " + o[1], "\n3. " + o[2], "\n4. " + o[3];
    calc {
      QuestionText(q);
      q.question + a + b + c + d;
      q.question + (a + (b + (c + d)));
    }
  }

  /** Four options are listed as four lines numbered from 1. */
  lemma ListingOfFour(o: seq<Text>)
    requires |o| == 4
    ensures Listing(o, 0)
      == OptionLine(0, o[0]) + (OptionLine(1, o[1]) + (OptionLine(2, o[2]) + OptionLine(3, o[3])))
  {
    assert o[1..][1..] == o[2..] && o[2..][1..] == o[3..] && o[3..][1..] == [];
    assert Listing(o[3..], 3) == OptionLine(3, o[3]) + [];
    assert Listing(o[2..], 2) == OptionLine(2, o[2]) + Listing(o[3..], 3);
    assert Listing(o[1..], 1) == OptionLine(1, o[1]) + Listing(o[2..], 2);
  }

  lemma OptionLinesSmall(o: seq<Text>)
    requires |o| == 4
    ensures OptionLine(0, o[0]) == "\n1. " + o[0]
    ensures OptionLine(1, o[1]) == "\n2. " + o[1]
    ensures OptionLine(2, o[2]) == "\n3. " + o[2]
    ensures OptionLine(3, o[3]) == "\n4. " + o[3]
  {
    assert Decimal(1) == "1" && Decimal(2) == "2" && Decimal(3) == "3" && Decimal(4) == "4";
  }

  lemma CStringConcat(a: Text, b: Text)
    requires IsCString(a) && IsCString(b)
    ensures IsCString(a + b)
  {
    assert forall k :: |a| <= k < |a + b| ==> (a + b)[k] == b[k - |a|];
  }

  /** Formatting adds no NUL to the question and its options. */
  lemma QuestionTextIsCString(q: TriviaQuestion)
    requires |q.options| == 4
    ensures IsCString(QuestionText(q))
  {
    var o := q.options;
    CStringConcat(q.question, "\n1. ");
    CStringConcat(q.question + "\n1. ", o[0]);
    CStringConcat(q.question + "\n1. " + o[0], "\n2. ");
    CStringConcat(q.question + "\n1. " + o[0] + "\n2. ", o[1]);
    CStringConcat(q.question + "\n1. " + o[0] + "\n2. " + o[1], "\n3. ");
    CStringConcat(q.question + "\n1. " + o[0] + "\n2. " + o[1] + "\n3. ", o[2]);
    CStringConcat(q.question + "\n1. " + o[0] + "\n2. " + o[1] + "\n3. " + o[2], "\n4. ");
    CStringConcat(q.question + "\n1. " + o[0] + "\n2. " + o[1] + "\n3. " + o[2] + "\n4. ", o[3]);
  }

  /** The payload broadcast for question `i`: its formatted text, cut to
      what the 512-byte buffer holds. */
  function QuestionPayload(i: nat): (p: Text)
    requires i < QuestionCount
    ensures |p| < QuestionBufferSize && IsCString(p)
    ensures p <= QuestionText(Catalogue[i])
  {
    var q := Catalogue[i];
    QuestionTextIsCString(q);
    var p := Truncated(QuestionText(q), QuestionBufferSize);
    assert forall k :: 0 <= k < |p| ==> p[k] == QuestionText(q)[k];
    p
  }

  /** None of the six questions is long enough to be cut. */
  lemma CatalogueNotTruncated(i: nat)
    requires i < QuestionCount
    ensures QuestionPayload(i) == QuestionText(Catalogue[i])
  {
    CatalogueWellFormed();
    var q := Catalogue[i];
    assert |QuestionText(q)| == |q.question| + 16 + |q.options[0]| + |q.options[1]| + |q.options[2]| + |q.options[3]|;
  }

  /** The QUESTION message for question `i`, with question id `i`. */
  function QuestionMessage(i: nat): (m: Message)
    requires i < QuestionCount
    ensures WellFormed(m) && IsCString(m.payload)
  {
    Message(Code(Question), i, QuestionPayload(i))
  }

  /** `start_game`'s loop: question `i` is formatted, built into the one
      reused message buffer, and sent, in order. */
  method StartGame() returns (sent: seq<seq<uint8>>)
    ensures |sent| == QuestionCount
    ensures forall i :: 0 <= i < QuestionCount ==> sent[i] == Encode(QuestionMessage(i))
    ensures forall i :: 0 <= i < QuestionCount ==> Decode(sent[i]) == Ok(QuestionMessage(i))
  {
    var question := new TrvMessage();
    sent := [];
    var i := 0;
    while i < QuestionCount
      invariant 0 <= i <= QuestionCount && |sent| == i
      invariant question.Valid() && fresh(question.payload)
      invariant forall j :: 0 <= j < i ==> sent[j] == Encode(QuestionMessage(j))
    {
      var m := QuestionMessage(i);
      var length := question.Build(m.msgType, m.questionId, m.payload);
      sent := sent + [question.Wire()];
      i := i + 1;
    }
    forall j | 0 <= j < QuestionCount
      ensures Decode(sent[j]) == Ok(QuestionMessage(j))
    {
      DecodeEncode(QuestionMessage(j), []);
      assert sent[j] + [] == sent[j];
    }
  }

  // ---------------------------------------------------------------------
  // The shared game state

  class Server {
    const clients: array<Client>
    var clientCount: nat
    var gameStarted: bool

    ghost predicate Valid()
      reads this
    {
      clients.Length == MaxClients && clientCount <= MaxClients
    }

    /** The zero-initialised globals: an empty table, lobby open. */
    constructor ()
      ensures Valid() && fresh(clients)
      ensures clientCount == 0 && !gameStarted
      ensures forall k :: 0 <= k < MaxClients ==> clients[k] == Unused
    {
      clients := new Client[MaxClients](_ => Unused);
      clientCount := 0;
      gameStarted := false;
    }

    /** One turn of the accept loop.  A connection is refused when the game
        has started or the table is full; otherwise it takes the next entry,
        unverified, with no points and a fresh keepalive time.  The entry's
        `authCode` is not reset. */
    method Admit(socket: int, addr: int, now: int) returns (admitted: bool)
      requires Valid()
      modifies this, clients
      ensures Valid() && gameStarted == old(gameStarted)
      ensures admitted <==> !old(gameStarted) && old(clientCount) < MaxClients
      ensures clientCount == old(clientCount) + (if admitted then 1 else 0)
      ensures admitted ==>
        clients[..] == old(clients[..])[old(clientCount) := old(clients[clientCount]).(
          socket := socket, addr := addr, verified := false, score := 0, lastKeepalive := now)]
      ensures !admitted ==> clients[..] == old(clients[..])
    {
      if gameStarted || clientCount >= MaxClients {
        return false;
      }
      var c := clients[clientCount];
      clients[clientCount] := c.(socket := socket, addr := addr, verified := false,
                                 score := 0, lastKeepalive := now);
      clientCount := clientCount + 1;
      admitted := true;
    }

    /** The start of `handle_client`: draw the code from the `rand()` value
        `r`, store it in entry `i` and send it as an AUTH_CODE message. */
    method IssueCode(i: nat, r: nat) returns (challenge: Message)
      requires Valid() && i < clientCount
      modifies clients
      ensures clients[..] == old(clients[..])[i := old(clients[i]).(authCode := AuthCodeOf(r))]
      ensures challenge == Message(Code(AuthCode), 0, Decimal(AuthCodeOf(r)))
      ensures 1000 <= clients[i].authCode <= 9999
    {
      var code := AuthCodeOf(r);
      clients[i] := clients[i].(authCode := code);
      challenge := Message(Code(AuthCode), 0, Decimal(code));
    }

    /** The authentication check on the one reply.  The reply's payload must
        leave room for the terminator the server writes after it. */
    method CheckReply(i: nat, reply: Message) returns (ok: bool, verdict: Message)
      requires Valid() && i < clientCount
      requires |reply.payload| < MaxPayload
      modifies clients
      ensures ok <==> AuthAccepts(reply, old(clients[i].authCode))
      ensures ok ==> clients[..] == old(clients[..])[i := old(clients[i]).(verified := true)]
      ensures !ok ==> clients[..] == old(clients[..])
      ensures verdict == if ok then Message(Code(AuthOk), 0, Welcome)
                         else Message(Code(AuthFail), 0, InvalidCode)
    {
      if reply.msgType != Code(AuthReply) || Atoi(reply.payload) != clients[i].authCode {
        return false, Message(Code(AuthFail), 0, InvalidCode);
      }
      clients[i] := clients[i].(verified := true);
      ok, verdict := true, Message(Code(AuthOk), 0, Welcome);
    }

    /** One turn of the handler's receive loop. */
    method Receive(i: nat, m: Message, now: int)
      requires Valid() && i < clientCount
      modifies clients
      ensures clients[..] == old(clients[..])[i := Received(old(clients[i]), m, now)]
    {
      var c := clients[i];
      if m.msgType == Code(Keepalive) {
        clients[i] := c.(lastKeepalive := now);
      } else if m.msgType == Code(Answer) {
        var qid := m.questionId;
        var ans := Atoi(m.payload);
        if 0 <= qid < QuestionCount && ans == Catalogue[qid].correctIndex + 1 {
          clients[i] := c.(score := c.score + 1);
        }
      }
    }

    /** `handle_client` for entry `i`: send the code, check the reply, and
        on success handle every later message until the peer closes. */
    method HandleClient(i: nat, r: nat, reply: Message, arrivals: seq<Arrival>)
      returns (challenge: Message, verdict: Message)
      requires Valid() && i < clientCount
      requires |reply.payload| < MaxPayload
      modifies clients
      ensures clients[..] == old(clients[..])[i := Handled(old(clients[i]), r, reply, arrivals)]
      ensures challenge == Message(Code(AuthCode), 0, Decimal(AuthCodeOf(r)))
      ensures verdict.msgType == if AuthAccepts(reply, AuthCodeOf(r)) then Code(AuthOk) else Code(AuthFail)
    {
      ghost var code := AuthCodeOf(r);
      ghost var issued := clients[i].(authCode := code);
      ghost var outcome := Handled(clients[i], r, reply, arrivals);
      challenge := IssueCode(i, r);
      assert clients[i] == issued;
      var ok;
      ok, verdict := CheckReply(i, reply);
      assert ok == AuthAccepts(reply, code);
      if !ok {
        assert outcome == issued;
        return;
      }
      assert outcome == ReceiveAll(issued.(verified := true), arrivals);
      Serve(i, arrivals);
    }

    /** The receive loop of `handle_client`: each message, in order, until
        the peer closes. */
    method Serve(i: nat, arrivals: seq<Arrival>)
      requires Valid() && i < clientCount
      modifies clients
      ensures clients[..] == old(clients[..])[i := ReceiveAll(old(clients[i]), arrivals)]
    {
      var k := 0;
      while k < |arrivals|
        invariant 0 <= k <= |arrivals|
        invariant clients[..] == old(clients[..])[i := ReceiveAll(old(clients[i]), arrivals[..k])]
      {
        assert arrivals[..k + 1][..k] == arrivals[..k];
        Receive(i, arrivals[k].msg, arrivals[k].at);
        k := k + 1;
      }
      assert arrivals[..k] == arrivals;
    }

    /** One pass of `keepalive_checker` at time `now`: every verified entry
        below `clientCount` quiet for more than the timeout is unverified. */
    method Sweep(now: int)
      requires Valid()
      modifies clients
      ensures clients[..] == Swept(old(clients[..]), clientCount, now)
    {
      var i := 0;
      while i < clientCount
        invariant 0 <= i <= clientCount
        invariant clients[..] == Swept(old(clients[..]), i, now)
      {
        if clients[i].verified && now - clients[i].lastKeepalive > KeepaliveTimeout {
          clients[i] := clients[i].(verified := false);
        }
        i := i + 1;
      }
    }

    /** `game_lobby_timer` once its wait is over: close the lobby for good
        and broadcast the questions. */
    method LobbyTimer() returns (sent: seq<seq<uint8>>)
      requires Valid()
      modifies this
      ensures Valid() && gameStarted
      ensures clientCount == old(clientCount) && clients[..] == old(clients[..])
      ensures |sent| == QuestionCount
      ensures forall i :: 0 <= i < QuestionCount ==> Decode(sent[i]) == Ok(QuestionMessage(i))
    {
      gameStarted := true;
      sent := StartGame();
    }
  }
}
