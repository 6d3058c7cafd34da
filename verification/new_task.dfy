/**
 * The producer of the work queue (Work_Queues/new_task.go): it asks for a
 * number of messages and a number of seconds, turns the seconds into a
 * string of dots and publishes one body per message index.
 *
 * Standard input is a sequence of answers: stdin[k] is the value the integer
 * variable holds after the k-th call of fmt.Scanln.
 */
module NewTask {
  import opened Common
  import Text
  import Utf8

  /** The queue every producer and worker declares. */
  const QueueName: string := "walter"

  /** The fixed text in front of the index of a generated body. */
  const Prefix: string := "Message N°"

  predicate AllDots(s: string) {
    forall k :: 0 <= k < |s| ==> s[k] == '.'
  }

  /** The answers validateNumber accepts, in the order they are given. */
  function Positives(xs: seq<int>): seq<int> {
    if xs == [] then [] else (if xs[0] > 0 then [xs[0]] else []) + Positives(xs[1..])
  }

  lemma {:induction false} PositivesFrom(xs: seq<int>, j: nat)
    requires j < |xs| && xs[j] > 0
    requires forall k :: 0 <= k < j ==> xs[k] <= 0
    ensures Positives(xs) == [xs[j]] + Positives(xs[j + 1..])
  {
    if j > 0 {
      PositivesFrom(xs[1..], j - 1);
      assert xs[1..][j..] == xs[j + 1..];
    }
  }

  lemma {:induction false} PositivesNone(xs: seq<int>)
    requires forall k :: 0 <= k < |xs| ==> xs[k] <= 0
    ensures Positives(xs) == []
  {
    if xs != [] {
      PositivesNone(xs[1..]);
    }
  }

  /**
   * validateNumber: as long as num is not positive, read the next answer into
   * num. When the answers run out, Scanln fails without changing num and the
   * loop never ends; None stands for that endless wait.
   */
  method ValidateNumber(num: int, stdin: seq<int>) returns (r: Option<int>, used: nat)
    ensures used <= |stdin|
    ensures r.Some? ==> r.value > 0
    ensures num > 0 ==> r == Some(num) && used == 0
    ensures num <= 0 && r.Some? ==>
      0 < used && r.value == stdin[used - 1] && forall k :: 0 <= k < used - 1 ==> stdin[k] <= 0
    ensures r.None? <==> num <= 0 && forall k :: 0 <= k < |stdin| ==> stdin[k] <= 0
  {
    var n := num;
    used := 0;
    while n <= 0
      invariant used <= |stdin|
      invariant used == 0 ==> n == num
      invariant num > 0 ==> used == 0
      invariant used > 0 ==> n == stdin[used - 1]
      invariant forall k :: 0 <= k < used - 1 ==> stdin[k] <= 0
      decreases |stdin| - used
    {
      if used == |stdin| {
        return None, used;
      }
      n := stdin[used];
      used := used + 1;
    }
    return Some(n), used;
  }

  /**
   * One question of main: Scanln into a fresh int (zero if nothing is read),
   * then validateNumber. The answer is the first positive one; the answers
   * left over are the ones after it.
   */
  method ReadPositive(stdin: seq<int>) returns (r: Option<int>, used: nat)
    ensures used <= |stdin|
    ensures r.Some? <==> Positives(stdin) != []
    ensures r.Some? ==> r.value > 0 && r.value == Positives(stdin)[0]
    ensures r.Some? ==> 0 < used && stdin[used - 1] == r.value && forall k :: 0 <= k < used - 1 ==> stdin[k] <= 0
    ensures r.Some? ==> Positives(stdin[used..]) == Positives(stdin)[1..]
  {
    var q := 0;
    var read := 0;
    if |stdin| > 0 {
      q := stdin[0];
      read := 1;
    }
    var rest;
    r, rest := ValidateNumber(q, stdin[read..]);
    used := read + rest;
    if r.Some? {
      if q > 0 {
        PositivesFrom(stdin, 0);
      } else {
        PositivesFrom(stdin, rest);
        assert stdin[rest + 1..] == stdin[used..];
      }
    } else if |stdin| > 0 {
      PositivesNone(stdin);
    }
  }

  /** The dots loop: "." and one more "." for each d from 1 below qtyDots. */
  method BuildDots(qtyDots: int) returns (dots: string)
    ensures |dots| == if qtyDots < 1 then 1 else qtyDots
    ensures AllDots(dots)
  {
    dots := ".";
    var d := 1;
    while d < qtyDots
      invariant 1 <= d && (d <= qtyDots || d == 1)
      invariant |dots| == d
      invariant AllDots(dots)
    {
      dots := dots + ".";
      d := d + 1;
    }
  }

  /** The generated body is used when no word follows the program name, or the first word is empty. */
  predicate UsesDefault(args: seq<string>) {
    |args| < 2 || args[1] == ""
  }

  /**
   * bodyFrom(os.Args, i, dots). args[0] is the program name. The source tests
   * os.Args[1] where it means args[1]; its one caller passes os.Args, so the two agree.
   */
  function BodyFrom(args: seq<string>, i: int, dots: string): string {
    if UsesDefault(args) then Prefix + Text.Decimal(i) + dots else Text.Join(args[1..], " ")
  }

  /** Reads a generated body back: the index and the number of dots. */
  function ParseDefaultBody(s: string): Option<(int, nat)> {
    if |s| < |Prefix| || s[..|Prefix|] != Prefix then None
    else ParseIndexAndDots(s[|Prefix|..])
  }

  /** Reads "<index>.<dots>" as the index and the total number of dots. */
  function ParseIndexAndDots(s: string): Option<(int, nat)> {
    match Text.Cut(s, '.')
    case None => None
    case Some((num, tail)) =>
      if !AllDots(tail) then None
      else
        match Text.ParseInt(num)
        case None => None
        case Some(i) => Some((i, |tail| + 1))
  }

  lemma ParseAfterPrefix(rest: string)
    ensures ParseDefaultBody(Prefix + rest) == ParseIndexAndDots(rest)
  {
    assert (Prefix + rest)[..|Prefix|] == Prefix;
    assert (Prefix + rest)[|Prefix|..] == rest;
  }

  lemma IndexAndDotsRoundTrip(i: int, dots: string)
    requires |dots| >= 1 && AllDots(dots)
    ensures ParseIndexAndDots(Text.Decimal(i) + dots) == Some((i, |dots|))
  {
    var num := Text.Decimal(i);
    assert dots == ['.'] + dots[1..];
    assert num + dots == num + ['.'] + dots[1..];
    assert '.' !in num;
    Text.CutAt(num, '.', dots[1..]);
    Text.DecimalRoundTrip(i);
  }

  /** A generated body determines its index and its number of dots. */
  lemma DefaultBodyRoundTrip(args: seq<string>, i: int, dots: string)
    requires UsesDefault(args) && |dots| >= 1 && AllDots(dots)
    ensures ParseDefaultBody(BodyFrom(args, i, dots)) == Some((i, |dots|))
  {
    assert BodyFrom(args, i, dots) == Prefix + (Text.Decimal(i) + dots);
    ParseAfterPrefix(Text.Decimal(i) + dots);
    IndexAndDotsRoundTrip(i, dots);
  }

  /** With words on the command line, the body is those words and nothing else:
      splitting it at spaces gives args[1:] back, without the program name. */
  lemma ArgsBodyRoundTrip(args: seq<string>, i: int, dots: string)
    requires !UsesDefault(args)
    requires forall k :: 1 <= k < |args| ==> ' ' !in args[k]
    ensures Text.Split(BodyFrom(args, i, dots), ' ') == args[1..]
  {
    Text.SplitJoin(args[1..], ' ');
  }

  lemma {:induction false} AllDotsCount(s: string)
    requires AllDots(s)
    ensures multiset(s)['.'] == |s|
  {
    if s != [] {
      AllDotsCount(s[1..]);
      assert s == [s[0]] + s[1..];
    }
  }

  /** Text without dots followed by dots holds exactly the dots, and so does its UTF-8 encoding. */
  lemma TrailingDots(text: string, dots: string)
    requires '.' !in text && AllDots(dots)
    ensures multiset(text + dots)['.'] == |dots|
    ensures multiset(Utf8.Encode(text + dots))[Utf8.DOT] == |dots|
  {
    AllDotsCount(dots);
    assert multiset(text + dots) == multiset(text) + multiset(dots);
    Utf8.EncodeKeepsDots(text + dots);
  }

  /** The text in front of the dots of a generated body: the fixed text and the index. */
  lemma {:induction false} IndexTextHasNoDot(i: int)
    ensures '.' !in Prefix + Text.Decimal(i)
  {
    assert '.' !in Prefix;
  }

  /** The fixed text and the decimal index hold no '.', so a generated body holds
      exactly the dots, and so does the published message. */
  lemma DefaultBodyDots(args: seq<string>, i: int, dots: string)
    requires UsesDefault(args) && AllDots(dots)
    ensures multiset(BodyFrom(args, i, dots))['.'] == |dots|
    ensures multiset(Message(BodyFrom(args, i, dots)).body)[Utf8.DOT] == |dots|
  {
    IndexTextHasNoDot(i);
    assert BodyFrom(args, i, dots) == (Prefix + Text.Decimal(i)) + dots;
    TrailingDots(Prefix + Text.Decimal(i), dots);
  }

  /** One publishing as main sends it: to the queue through the default exchange,
      persistent, as plain text, the body's UTF-8 bytes. */
  datatype Publishing = Publishing(
    exchange: string, routingKey: string, mandatory: bool, immediate: bool,
    persistent: bool, contentType: string, body: seq<byte>)

  function Message(body: string): Publishing {
    Publishing("", QueueName, false, false, true, "text/plain", Utf8.Encode(body))
  }

  /** The send loop: one message for each i from 1 to qtyMessage, in that order. */
  method SendAll(args: seq<string>, qtyMessage: int, dots: string) returns (sent: seq<Publishing>)
    ensures |sent| == if qtyMessage < 1 then 0 else qtyMessage
    ensures forall k :: 0 <= k < |sent| ==> sent[k] == Message(BodyFrom(args, k + 1, dots))
  {
    sent := [];
    var i := 1;
    while i <= qtyMessage
      invariant 1 <= i && (i <= qtyMessage + 1 || i == 1)
      invariant |sent| == i - 1
      invariant forall k :: 0 <= k < |sent| ==> sent[k] == Message(BodyFrom(args, k + 1, dots))
    {
      var body := BodyFrom(args, i, dots);
      sent := sent + [Message(body)];
      i := i + 1;
    }
  }

  /** Every generated message holds exactly the dots. */
  lemma GeneratedMessagesDots(args: seq<string>, dots: string, msgs: seq<Publishing>)
    requires UsesDefault(args) && AllDots(dots)
    requires forall k :: 0 <= k < |msgs| ==> msgs[k] == Message(BodyFrom(args, k + 1, dots))
    ensures forall k :: 0 <= k < |msgs| ==> multiset(msgs[k].body)[Utf8.DOT] == |dots|
  {
    forall k | 0 <= k < |msgs|
      ensures multiset(msgs[k].body)[Utf8.DOT] == |dots|
    {
      DefaultBodyDots(args, k + 1, dots);
    }
  }

  /** How a run of the producer ends: waiting for input forever, or having sent its messages. */
  datatype Run =
    | WaitsForever
    | Sent(qtyMessage: int, qtyDots: int, dots: string, messages: seq<Publishing>)

  /**
   * main after the connection and channel are open: read the two quantities,
   * build the dots and send the messages. When the body is generated, every
   * message carries exactly qtyDots '.' bytes.
   */
  method RunProducer(args: seq<string>, stdin: seq<int>) returns (run: Run)
    ensures run.WaitsForever? <==> |Positives(stdin)| < 2
    ensures run.Sent? ==> run.qtyMessage == Positives(stdin)[0] && run.qtyDots == Positives(stdin)[1]
    ensures run.Sent? ==> |run.dots| == run.qtyDots && AllDots(run.dots)
    ensures run.Sent? ==> |run.messages| == run.qtyMessage
    ensures run.Sent? ==> forall k :: 0 <= k < |run.messages| ==>
      run.messages[k] == Message(BodyFrom(args, k + 1, run.dots))
    ensures run.Sent? && UsesDefault(args) ==> forall k :: 0 <= k < |run.messages| ==>
      multiset(run.messages[k].body)[Utf8.DOT] == run.qtyDots
  {
    var qtyMessage, used := ReadPositive(stdin);
    if qtyMessage.None? {
      return WaitsForever;
    }
    var qtyDots, _ := ReadPositive(stdin[used..]);
    if qtyDots.None? {
      return WaitsForever;
    }
    var dots := BuildDots(qtyDots.value);
    var messages := SendAll(args, qtyMessage.value, dots);
    if UsesDefault(args) {
      GeneratedMessagesDots(args, dots, messages);
    }
    return Sent(qtyMessage.value, qtyDots.value, dots, messages);
  }
}
