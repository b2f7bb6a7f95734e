/**
 * NetworkService.handle (OPFService/NetworkService.cs): one request from the
 * password filter. It reads a command line and, for "test", a password line,
 * checks the password against the rules, and asks the dictionary only when
 * the rules accept it. A refused password gets "false" and an early return
 * that leaves the client open. An accepted one gets "true" or "false" from the
 * dictionary, and the client is closed. Any other command, and any IOException,
 * gets no reply, and the client is closed.
 *
 * The socket is reduced to its line streams (`Connection`), the dictionary to
 * its membership oracle (`Dictionary`). The exchange a request produces is
 * stated as the function `Exchange`, and `NetworkService.Handle` is proved to
 * perform exactly that exchange.
 */
module Network {
  import opened Wrappers
  import opened RulesConfig
  import opened RulesCheck

  /** What the peer delivers to one `ReadLine`: a line, or a broken connection. */
  datatype Incoming = Line(text: string) | Broken

  /** The IOException a broken connection raises inside the handler. */
  datatype Fault = IOException

  // ---------------------------------------------------------------------------
  // The exchange a request produces
  // ---------------------------------------------------------------------------

  /**
   * `istream.ReadLine()`. It yields the next line. Once the peer has closed,
   * the input is exhausted and it yields null (`None`).
   */
  function Read(input: seq<Incoming>): Result<Option<string>, Fault> {
    if input == [] then Success(None)
    else match input[0]
      case Line(text) => Success(Some(text))
      case Broken => Failure(IOException)
  }

  /** The input left after one `ReadLine`. */
  function AfterRead(input: seq<Incoming>): (rest: seq<Incoming>)
    ensures |rest| == if input == [] then 0 else |input| - 1
  {
    if input == [] then [] else input[1..]
  }

  /**
   * The effect of handling one connection. `remaining` is the unread input,
   * `queries` the dictionary lookups made, `sent` the lines delivered to the
   * peer, and `closed` whether the client socket was closed.
   */
  datatype Outcome = Outcome(remaining: seq<Incoming>, queries: seq<string>, sent: seq<string>, closed: bool)

  /** The reply for a password the rules accepted: "false" when the dictionary holds it. */
  function Reply(contained: bool): string {
    if contained then "false" else "true"
  }

  /**
   * What `handle` does with the input `input`. The rules are `rules` and `u`,
   * the dictionary is `contains`, and `writeFails` says whether flushing a
   * reply raises an IOException. The steps are:
   * - An exception anywhere in the body is caught and logged, and the client is closed.
   * - A command other than "test" is logged, and the client is closed.
   * - A password the rules refuse gets "false" and an early return that leaves the client open.
   * - Otherwise the dictionary decides the reply, and the client is closed.
   */
  function Exchange(rules: Policy, u: CharInfo, contains: string -> bool, input: seq<Incoming>, writeFails: bool): Outcome {
    var command := Read(input);
    var afterCommand := AfterRead(input);
    if command.Failure? || command.value != Some("test") then
      Outcome(afterCommand, [], [], true)
    else
      var password := Read(afterCommand);
      var afterPassword := AfterRead(afterCommand);
      if password.Failure? then
        Outcome(afterPassword, [], [], true)
      else if !Accepts(rules, u, password.value) then
        Outcome(afterPassword, [], if writeFails then [] else ["false"], writeFails)
      else
        var reply := Reply(contains(password.value.value));
        Outcome(afterPassword, [password.value.value], if writeFails then [] else [reply], true)
  }

  // ---------------------------------------------------------------------------
  // The objects the handler works on
  // ---------------------------------------------------------------------------

  /** The client socket, seen through its `StreamReader` and `StreamWriter`. */
  class Connection {
    /** The lines the peer has still to deliver. The end of the sequence is where the peer closed. */
    var input: seq<Incoming>
    /** The lines flushed to the peer so far. */
    var output: seq<string>
    var closed: bool
    /** Whether the peer has gone, so that a flush raises an IOException. */
    const writeFails: bool

    constructor(input: seq<Incoming>, writeFails: bool)
      ensures this.input == input && output == [] && !closed && this.writeFails == writeFails
    {
      this.input := input;
      output := [];
      closed := false;
      this.writeFails := writeFails;
    }

    /** `istream.ReadLine()`. */
    method ReadLine() returns (line: Result<Option<string>, Fault>)
      modifies this
      ensures line == Read(old(input)) && input == AfterRead(old(input))
      ensures output == old(output) && closed == old(closed)
    {
      if input == [] {
        return Success(None);
      }
      var next := input[0];
      input := input[1..];
      match next {
        case Line(text) =>
          line := Success(Some(text));
        case Broken =>
          line := Failure(IOException);
      }
    }

    /** `ostream.WriteLine(text)` followed by `ostream.Flush()`. */
    method WriteLine(text: string) returns (r: Result<(), Fault>)
      modifies this
      ensures writeFails ==> r == Failure(IOException) && output == old(output)
      ensures !writeFails ==> r == Success(()) && output == old(output) + [text]
      ensures input == old(input) && closed == old(closed)
    {
      if writeFails {
        return Failure(IOException);
      }
      output := output + [text];
      r := Success(());
    }

    /** `client.Close()`. */
    method Close()
      modifies this
      ensures closed && input == old(input) && output == old(output)
    {
      closed := true;
    }
  }

  /** `OPFDictionary`, as far as the handler sees it: a membership test. */
  class Dictionary {
    const contains: string -> bool
    /** Every password looked up so far, in order. */
    ghost var queries: seq<string>

    constructor(contains: string -> bool)
      ensures this.contains == contains && queries == []
    {
      this.contains := contains;
      queries := [];
    }

    /** `dict.contains(password)`. */
    method Contains(password: string) returns (found: bool)
      modifies this
      ensures found == contains(password) && queries == old(queries) + [password]
    {
      queries := queries + [password];
      found := contains(password);
    }
  }

  /** The service object: the dictionary and the loaded rules that every connection shares. */
  class NetworkService {
    const dict: Dictionary
    const rules: Policy
    /** The runtime's character classification that `CheckPassword` consults. */
    const chars: CharInfo

    constructor(d: Dictionary, r: Policy, u: CharInfo)
      ensures dict == d && rules == r && chars == u
    {
      dict := d;
      rules := r;
      chars := u;
    }

    /**
     * `handle(client)`. No exception leaves it. The effect on the client and
     * on the dictionary's query log is exactly `Exchange`.
     */
    method Handle(client: Connection)
      modifies client, dict
      ensures var o := Exchange(rules, chars, dict.contains, old(client.input), client.writeFails);
        && client.input == o.remaining
        && client.output == old(client.output) + o.sent
        && client.closed == (old(client.closed) || o.closed)
        && dict.queries == old(dict.queries) + o.queries
    {
      label body: {
        var command := client.ReadLine();
        if command.Failure? {
          // caught and logged
          break body;
        }
        if command.value == Some("test") {
          var password := client.ReadLine();
          if password.Failure? {
            break body;
          }
          var passes := CheckPassword(rules, chars, password.value);
          if !passes {
            // fail fast, without the dictionary: this return skips the close below
            var sent := client.WriteLine("false");
            if sent.Failure? {
              break body;
            }
            return;
          }
          var contained := dict.Contains(password.value.value);
          var sent := client.WriteLine(Reply(contained));
          if sent.Failure? {
            break body;
          }
        } else {
          // an unrecognised command is only logged
        }
      }
      client.Close();
    }
  }

  // ---------------------------------------------------------------------------
  // Properties of the exchange
  // ---------------------------------------------------------------------------

  /** The replies the handler can send. */
  predicate IsReply(line: string) {
    line == "true" || line == "false"
  }

  /**
   * The password line is read only after the command "test". Any other
   * command, a null one included, reads nothing more. It gets no reply and no
   * lookup, and the client is closed.
   */
  lemma OtherCommandsIgnored(rules: Policy, u: CharInfo, contains: string -> bool, input: seq<Incoming>, writeFails: bool)
    requires Read(input) != Success(Some("test"))
    ensures var o := Exchange(rules, u, contains, input, writeFails);
      && o.remaining == AfterRead(input)
      && o.sent == [] && o.queries == [] && o.closed
  {
  }

  /**
   * A password the rules refuse gets the single reply "false" and no
   * dictionary lookup. The early return leaves the client open unless the
   * reply itself failed.
   */
  lemma RefusedWithoutLookup(rules: Policy, u: CharInfo, contains: string -> bool, rest: seq<Incoming>, writeFails: bool)
    requires var password := Read(rest);
      password.Success? && !Accepts(rules, u, password.value)
    ensures var o := Exchange(rules, u, contains, [Line("test")] + rest, writeFails);
      && o.queries == []
      && o.sent == (if writeFails then [] else ["false"])
      && o.closed == writeFails
  {
    assert AfterRead([Line("test")] + rest) == rest;
  }

  /**
   * A password the rules accept is looked up once, and only that password. The
   * reply is "false" exactly when the dictionary holds it. The client is closed.
   */
  lemma AcceptedLookedUpOnce(rules: Policy, u: CharInfo, contains: string -> bool, rest: seq<Incoming>, writeFails: bool)
    requires var password := Read(rest);
      password.Success? && Accepts(rules, u, password.value)
    ensures var o := Exchange(rules, u, contains, [Line("test")] + rest, writeFails);
      && Read(rest).value.Some?
      && o.queries == [Read(rest).value.value]
      && o.sent == (if writeFails then [] else [if contains(Read(rest).value.value) then "false" else "true"])
      && o.closed
  {
    assert AfterRead([Line("test")] + rest) == rest;
  }

  /** Every dictionary lookup is of a password the rules have already accepted. */
  lemma LookupsFollowRules(rules: Policy, u: CharInfo, contains: string -> bool, input: seq<Incoming>, writeFails: bool)
    ensures var o := Exchange(rules, u, contains, input, writeFails);
      |o.queries| <= 1 && forall q :: q in o.queries ==> Accepts(rules, u, Some(q))
  {
  }

  /** At most one line is sent, and it is "true" or "false". */
  lemma AtMostOneReply(rules: Policy, u: CharInfo, contains: string -> bool, input: seq<Incoming>, writeFails: bool)
    ensures var o := Exchange(rules, u, contains, input, writeFails);
      |o.sent| <= 1 && forall line :: line in o.sent ==> IsReply(line)
  {
  }

  /**
   * The peer hears "true" exactly when the command was "test" and the rules
   * accept the password. The dictionary must also not hold it, and the reply
   * must get through.
   */
  lemma TrueExactlyWhen(rules: Policy, u: CharInfo, contains: string -> bool, input: seq<Incoming>, writeFails: bool)
    ensures var o := Exchange(rules, u, contains, input, writeFails);
      var password := Read(AfterRead(input));
      o.sent == ["true"] <==>
        && Read(input) == Success(Some("test"))
        && password.Success? && Accepts(rules, u, password.value)
        && !contains(password.value.value)
        && !writeFails
  {
  }

  /** A peer that closes right after "test" sends a null password. It gets "false" in either mode, with no lookup. */
  lemma NullPasswordRefused(rules: Policy, u: CharInfo, contains: string -> bool)
    ensures var o := Exchange(rules, u, contains, [Line("test")], false);
      o.sent == ["false"] && o.queries == [] && !o.closed
  {
    NullRejected(rules, u);
  }

  /**
   * The client is left open exactly on the fail-fast path. This is a refused
   * password whose "false" reply was delivered. Every other path closes it.
   */
  lemma OpenOnlyAfterFailFast(rules: Policy, u: CharInfo, contains: string -> bool, input: seq<Incoming>, writeFails: bool)
    ensures var o := Exchange(rules, u, contains, input, writeFails);
      var password := Read(AfterRead(input));
      !o.closed <==>
        && Read(input) == Success(Some("test"))
        && password.Success? && !Accepts(rules, u, password.value)
        && !writeFails
  {
  }

  // ---------------------------------------------------------------------------
  // Worked exchanges, under the default thresholds with a rules file present
  // ---------------------------------------------------------------------------

  /** A dictionary that holds one leaked password. */
  function Leaked(password: string): bool {
    password == "Password1!"
  }

  /** A compliant password that the dictionary does not hold is answered "true". */
  lemma CompliantUnknownAnsweredTrue()
    ensures var o := Exchange(Strict, Sample, Leaked, [Line("test"), Line("Abcdef1!")], false);
      o.sent == ["true"] && o.queries == ["Abcdef1!"] && o.closed
  {
    DefaultsAcceptMixed();
    AcceptedLookedUpOnce(Strict, Sample, Leaked, [Line("Abcdef1!")], false);
  }

  /** A run of three equal characters is answered "false" before the dictionary is asked. */
  lemma TripleAnsweredFalse()
    ensures var o := Exchange(Strict, Sample, Leaked, [Line("test"), Line("aaaBBB11!!")], false);
      o.sent == ["false"] && o.queries == []
  {
    DefaultsRejectTriple();
    RefusedWithoutLookup(Strict, Sample, Leaked, [Line("aaaBBB11!!")], false);
  }

  /** Without a rules file the empty password is answered "false". */
  lemma PermissiveEmptyAnsweredFalse()
    ensures var o := Exchange(Initial, Sample, Leaked, [Line("test"), Line("")], false);
      o.sent == ["false"] && o.queries == []
  {
    PermissiveMode(Initial, Sample, Some(""));
    RefusedWithoutLookup(Initial, Sample, Leaked, [Line("")], false);
  }

  /** A compliant password that the dictionary holds is answered "false" after one lookup. */
  lemma LeakedAnsweredFalse()
    ensures var o := Exchange(Strict, Sample, Leaked, [Line("test"), Line("Password1!")], false);
      o.sent == ["false"] && o.queries == ["Password1!"]
  {
    DefaultsAcceptDoubled();
    AcceptedLookedUpOnce(Strict, Sample, Leaked, [Line("Password1!")], false);
  }

  /** Any command other than "test" gets no reply and the client is closed. */
  lemma PingIgnored()
    ensures var o := Exchange(Strict, Sample, Leaked, [Line("ping"), Line("Abcdef1!")], false);
      o.sent == [] && o.queries == [] && o.closed && o.remaining == [Line("Abcdef1!")]
  {
    OtherCommandsIgnored(Strict, Sample, Leaked, [Line("ping"), Line("Abcdef1!")], false);
  }
}
