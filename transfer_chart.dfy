/**
 * The data the `TransferChart` component plots (src/TransferChart.jsx:6-17): three
 * `history.filter(...).length` counts over the client's transfer history, in the
 * order of the chart's labels.
 */
module TransferChart {
  import opened Wrappers

  /** One entry of `history`. A field the entry lacks is `None`. */
  datatype Record = Record(status: string, sender: Option<string>, recipient: Option<string>)

  const Delivered: string := "Delivered"

  /** JavaScript truthiness of a string field: present and not the empty string. */
  predicate Truthy(field: Option<string>) {
    field.Some? && field.value != ""
  }

  /** `h.status === 'Delivered' && h.sender` */
  predicate IsSent(h: Record) {
    h.status == Delivered && Truthy(h.sender)
  }

  /** `h.status !== 'Delivered'` */
  predicate IsFailed(h: Record) {
    h.status != Delivered
  }

  /** `h.status === 'Delivered' && h.recipient` */
  predicate IsReceived(h: Record) {
    h.status == Delivered && Truthy(h.recipient)
  }

  /** `history.filter(keep)`: the records `keep` accepts, each as often as in `history`. */
  function Filter(history: seq<Record>, keep: Record -> bool): (r: seq<Record>)
    ensures |r| <= |history|
    ensures forall i :: 0 <= i < |r| ==> keep(r[i])
    ensures forall x :: multiset(r)[x] == if keep(x) then multiset(history)[x] else 0
  {
    if history == [] then []
    else
      var rest := Filter(history[1..], keep);
      assert history == [history[0]] + history[1..];
      if keep(history[0]) then [history[0]] + rest else rest
  }

  /** A filter keeps nothing exactly when it rejects every record. */
  lemma {:induction false} FilterEmptyIff(history: seq<Record>, keep: Record -> bool)
    ensures |Filter(history, keep)| == 0 <==> forall i :: 0 <= i < |history| ==> !keep(history[i])
  {
    if history != [] {
      var t := history[1..];
      FilterEmptyIff(t, keep);
      assert forall i :: 1 <= i < |history| ==> history[i] == t[i - 1];
    }
  }

  /** A filter keeps every record exactly when it accepts every record. */
  lemma {:induction false} FilterFullIff(history: seq<Record>, keep: Record -> bool)
    ensures |Filter(history, keep)| == |history| <==> forall i :: 0 <= i < |history| ==> keep(history[i])
  {
    if history != [] {
      var t := history[1..];
      FilterFullIff(t, keep);
      assert forall i :: 1 <= i < |history| ==> history[i] == t[i - 1];
    }
  }

  function Sent(history: seq<Record>): (n: nat)
    ensures n <= |history|
    ensures n == 0 <==> forall i :: 0 <= i < |history| ==> !IsSent(history[i])
    ensures n == |history| <==> forall i :: 0 <= i < |history| ==> IsSent(history[i])
  {
    FilterEmptyIff(history, IsSent);
    FilterFullIff(history, IsSent);
    |Filter(history, IsSent)|
  }

  /** `failed`: zero exactly when every record is delivered, the whole history exactly
   *  when none is. */
  function Failed(history: seq<Record>): (n: nat)
    ensures n <= |history|
    ensures n == 0 <==> forall i :: 0 <= i < |history| ==> history[i].status == Delivered
    ensures n == |history| <==> forall i :: 0 <= i < |history| ==> history[i].status != Delivered
  {
    FilterEmptyIff(history, IsFailed);
    FilterFullIff(history, IsFailed);
    |Filter(history, IsFailed)|
  }

  /** `received`: zero exactly when no record is a delivered one with a recipient, the
   *  whole history exactly when every record is. */
  function Received(history: seq<Record>): (n: nat)
    ensures n <= |history|
    ensures n == 0 <==> forall i :: 0 <= i < |history| ==> !IsReceived(history[i])
    ensures n == |history| <==> forall i :: 0 <= i < |history| ==> IsReceived(history[i])
  {
    FilterEmptyIff(history, IsReceived);
    FilterFullIff(history, IsReceived);
    |Filter(history, IsReceived)|
  }

  /** The three bars of the chart. */
  datatype Bar = SentBar | ReceivedBar | FailedBar

  function Label(b: Bar): string {
    match b
    case SentBar => "Sent"
    case ReceivedBar => "Received"
    case FailedBar => "Failed"
  }

  /** The filter a bar counts. */
  function Keep(b: Bar): Record -> bool {
    match b
    case SentBar => IsSent
    case ReceivedBar => IsReceived
    case FailedBar => IsFailed
  }

  /** A bar's place in the chart. */
  function Position(b: Bar): nat {
    match b
    case SentBar => 0
    case ReceivedBar => 1
    case FailedBar => 2
  }

  /** The `data` object handed to the bar chart (dataset colours left out). */
  datatype ChartData = ChartData(labels: seq<string>, values: seq<nat>)

  /** `labels: ['Sent', 'Received', 'Failed']` with `data: [sent, received, failed]`; the
   *  failed bar never overlaps the other two. */
  function Chart(history: seq<Record>): (c: ChartData)
    ensures c.labels == ["Sent", "Received", "Failed"] && |c.values| == |c.labels|
    ensures c.values[0] + c.values[2] <= |history| && c.values[1] + c.values[2] <= |history|
  {
    FailedDisjoint(history);
    ChartData(["Sent", "Received", "Failed"], [Sent(history), Received(history), Failed(history)])
  }

  /** The chart has three bars; each bar's label and value sit at the same place, and the
   *  value is the count of the filter the label names. */
  lemma ChartPairsLabelsWithCounts(history: seq<Record>, b: Bar)
    ensures var c := Chart(history);
      |c.labels| == |c.values| == 3 &&
      c.labels[Position(b)] == Label(b) &&
      c.values[Position(b)] == |Filter(history, Keep(b))|
  {
    match b
    case SentBar =>
    case ReceivedBar =>
    case FailedBar =>
  }

  /** `failed` counts the records whose status is not `'Delivered'`; `sent` and `received`
   *  count the delivered ones with a truthy sender, resp. recipient. Each is at most the
   *  length of the history. */
  lemma CountsAreFilterCounts(history: seq<Record>, x: Record)
    ensures Sent(history) <= |history| && Received(history) <= |history| && Failed(history) <= |history|
    ensures multiset(Filter(history, IsFailed))[x] == if x.status != Delivered then multiset(history)[x] else 0
    ensures multiset(Filter(history, IsSent))[x] ==
      if x.status == Delivered && Truthy(x.sender) then multiset(history)[x] else 0
    ensures multiset(Filter(history, IsReceived))[x] ==
      if x.status == Delivered && Truthy(x.recipient) then multiset(history)[x] else 0
  {
  }

  /** `failed` never overlaps `sent` or `received`, so neither sum exceeds the history. */
  lemma {:induction false} FailedDisjoint(history: seq<Record>)
    ensures Sent(history) + Failed(history) <= |history|
    ensures Received(history) + Failed(history) <= |history|
  {
    if history != [] {
      var h, t := history[0], history[1..];
      FailedDisjoint(t);
      assert |Filter(history, IsSent)| == |Filter(t, IsSent)| + (if IsSent(h) then 1 else 0);
      assert |Filter(history, IsReceived)| == |Filter(t, IsReceived)| + (if IsReceived(h) then 1 else 0);
      assert |Filter(history, IsFailed)| == |Filter(t, IsFailed)| + (if IsFailed(h) then 1 else 0);
    }
  }

  /** When every record names a sender and a recipient, every delivered record counts
   *  once as sent and once as received. */
  lemma {:induction false} AllNamedSentEqualsReceived(history: seq<Record>)
    requires forall i :: 0 <= i < |history| ==> Truthy(history[i].sender) && Truthy(history[i].recipient)
    ensures Sent(history) == Received(history) == |history| - Failed(history)
  {
    if history != [] {
      AllNamedSentEqualsReceived(history[1..]);
    }
  }
}
