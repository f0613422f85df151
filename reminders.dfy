/**
 * The reminder registry (`reminders_by_user`: owner email -> ordered list of
 * reminder entries) and one tick of the background dispatcher that mails the
 * entries whose time has come.
 *
 * The wall clock and the mail gateway stay outside: a tick is given the current
 * minute and the gateway's answers `replies`, where `replies[k]` is what the
 * gateway answers to the k-th mail sent during that tick (counting from 0). The
 * tick returns the mails it sent, in order.
 */
module Reminders {
  import opened Wrappers
  import opened Clock

  const SUBJECT: string := "EduMentor Study Reminder"
  const DEFAULT_BODY: string := "Time to study!"

  /** One reminder: its "HH:MM" time, its message (absent: `None`), whether it was sent, the last error. */
  datatype Entry = Entry(time: string, msg: Option<string>, sent: bool, lastError: Option<string>)

  /** What the mail gateway answers to one send. */
  datatype Reply = Delivered | Failed(error: string)

  /** One call to the mail gateway. */
  datatype Mail = Mail(to: string, subject: string, body: string)

  /** The gateway's answer to send number `k` of a tick (a tick is always given one answer per send). */
  function Answer(replies: seq<Reply>, k: nat): Reply {
    if k < |replies| then replies[k] else Delivered
  }

  /** An entry the tick at minute `now` attempts: not yet sent and timed for `now`. */
  predicate Due(e: Entry, now: string) {
    !e.sent && e.time == now
  }

  /** The mail for an entry of `owner`: the fixed subject, the message or the default body. */
  function MailFor(owner: string, e: Entry): (m: Mail)
    ensures m.to == owner && m.subject == SUBJECT
    ensures m.body == (if e.msg.Some? then e.msg.value else DEFAULT_BODY)
  {
    Mail(owner, SUBJECT, match e.msg case Some(text) => text case None => DEFAULT_BODY)
  }

  /** The entry after one delivery attempt answered by `r`: marked sent, and on failure the error kept. */
  function Attempted(e: Entry, r: Reply): (a: Entry)
    ensures a.sent && a.time == e.time && a.msg == e.msg
    ensures r.Failed? ==> a.lastError == Some(r.error)
    ensures r.Delivered? ==> a.lastError == e.lastError
  {
    var marked := e.(sent := true);
    if r.Failed? then marked.(lastError := Some(r.error)) else marked
  }

  /** The entry a reminder add creates. */
  function NewEntry(time: string, msg: string): (e: Entry)
    ensures !e.sent && e.lastError == None
    ensures e.time == time && e.msg == Some(msg)
  {
    Entry(time, Some(msg), false, None)
  }

  /** How many entries of `es` are due at `now`. */
  function CountDue(es: seq<Entry>, now: string): (n: nat)
    ensures n <= |es|
    decreases |es|
  {
    if es == [] then 0
    else CountDue(es[..|es| - 1], now) + (if Due(es[|es| - 1], now) then 1 else 0)
  }

  /** The mails one tick sends for the entries `es` of `owner`: one per due entry, in list order. */
  function DueMails(owner: string, es: seq<Entry>, now: string): (m: seq<Mail>)
    ensures |m| == CountDue(es, now)
    decreases |es|
  {
    if es == [] then []
    else
      var e := es[|es| - 1];
      DueMails(owner, es[..|es| - 1], now) + (if Due(e, now) then [MailFor(owner, e)] else [])
  }

  /**
   * The entries `es` after one tick, when the tick had sent `base` mails before
   * reaching this list: each due entry is attempted and answered by the reply
   * to its own send; every other entry is kept.
   */
  function Ticked(es: seq<Entry>, now: string, replies: seq<Reply>, base: nat): (r: seq<Entry>)
    ensures |r| == |es|
    decreases |es|
  {
    if es == [] then []
    else
      var e := es[|es| - 1];
      var init := es[..|es| - 1];
      Ticked(init, now, replies, base)
        + [if Due(e, now) then Attempted(e, Answer(replies, base + CountDue(init, now))) else e]
  }

  /** `reminders_by_user.get(user, [])`: the entries of `user`, or none. */
  function Entries(lists: map<string, seq<Entry>>, user: string): seq<Entry> {
    if user in lists then lists[user] else []
  }

  /** No owner is listed twice. */
  ghost predicate Distinct(owners: seq<string>) {
    forall a, b :: 0 <= a < b < |owners| ==> owners[a] != owners[b]
  }

  /** The keys of the registry in the dictionary's insertion order, each once, and nothing else. */
  ghost predicate WellFormed(owners: seq<string>, lists: map<string, seq<Entry>>) {
    Distinct(owners) && forall u :: u in lists <==> u in owners
  }

  /** How many entries of the lists of `owners` are due at `now`. */
  function CountDueAll(owners: seq<string>, lists: map<string, seq<Entry>>, now: string): nat
    decreases |owners|
  {
    if owners == [] then 0
    else CountDueAll(owners[..|owners| - 1], lists, now) + CountDue(Entries(lists, owners[|owners| - 1]), now)
  }

  /** The mails one tick over the owners in order sends: each owner's due mails, owner after owner. */
  function TickMails(owners: seq<string>, lists: map<string, seq<Entry>>, now: string): (m: seq<Mail>)
    ensures |m| == CountDueAll(owners, lists, now)
    decreases |owners|
  {
    if owners == [] then []
    else
      var u := owners[|owners| - 1];
      TickMails(owners[..|owners| - 1], lists, now) + DueMails(u, Entries(lists, u), now)
  }

  /**
   * The registry after one tick over the owners in order: each owner's list
   * is ticked after the sends of the owners before it; keys are kept.
   */
  function TickLists(owners: seq<string>, lists: map<string, seq<Entry>>, now: string, replies: seq<Reply>)
    : (r: map<string, seq<Entry>>)
    ensures r.Keys == lists.Keys
    decreases |owners|
  {
    if owners == [] then lists
    else
      var init := owners[..|owners| - 1];
      var p := TickLists(init, lists, now, replies);
      var u := owners[|owners| - 1];
      if u in lists then p[u := Ticked(lists[u], now, replies, CountDueAll(init, lists, now))] else p
  }

  /** The index, among the mails of a tick, of the mail for entry `j` of owner `i`. */
  function SendIndex(owners: seq<string>, lists: map<string, seq<Entry>>, now: string, i: nat, j: nat): nat
    requires i < |owners| && j <= |Entries(lists, owners[i])|
  {
    CountDueAll(owners[..i], lists, now) + CountDue(Entries(lists, owners[i])[..j], now)
  }

  /** Within one list, entry `j` after the tick: attempted with the reply to its own send exactly when due. */
  lemma {:induction false} TickedAt(es: seq<Entry>, now: string, replies: seq<Reply>, base: nat, j: nat)
    requires j < |es|
    ensures Ticked(es, now, replies, base)[j]
         == if Due(es[j], now) then Attempted(es[j], Answer(replies, base + CountDue(es[..j], now))) else es[j]
    decreases |es|
  {
    var init := es[..|es| - 1];
    if j < |es| - 1 {
      TickedAt(init, now, replies, base, j);
      assert init[..j] == es[..j] && init[j] == es[j];
    } else {
      assert es[..j] == init;
    }
  }

  /** Within one list, a due entry `j` is mailed, after the mails of the due entries before it. */
  lemma {:induction false} DueMailAt(owner: string, es: seq<Entry>, now: string, j: nat)
    requires j < |es| && Due(es[j], now)
    ensures CountDue(es[..j], now) < CountDue(es, now)
    ensures DueMails(owner, es, now)[CountDue(es[..j], now)] == MailFor(owner, es[j])
    decreases |es|
  {
    var n := |es|;
    var init := es[..n - 1];
    if j < n - 1 {
      DueMailAt(owner, init, now, j);
      assert init[..j] == es[..j] && init[j] == es[j];
    } else {
      assert es[..j] == init;
    }
  }

  /** Lists of owners the tick has not reached are untouched. */
  lemma {:induction false} TickAllOutside(owners: seq<string>, lists: map<string, seq<Entry>>, now: string, replies: seq<Reply>, u: string)
    requires u !in owners
    ensures Entries(TickLists(owners, lists, now, replies), u) == Entries(lists, u)
    decreases |owners|
  {
    if owners != [] {
      var init := owners[..|owners| - 1];
      TickAllOutside(init, lists, now, replies, u);
    }
  }

  /** The list of owner `i` is ticked on its original entries, after the mails of the owners before it. */
  lemma {:induction false} TickAllListAt(owners: seq<string>, lists: map<string, seq<Entry>>, now: string, replies: seq<Reply>, i: nat)
    requires Distinct(owners)
    requires i < |owners|
    ensures Entries(TickLists(owners, lists, now, replies), owners[i])
         == if owners[i] in lists
            then Ticked(lists[owners[i]], now, replies, CountDueAll(owners[..i], lists, now))
            else []
    decreases |owners|
  {
    var n := |owners|;
    var init := owners[..n - 1];
    if i < n - 1 {
      assert Distinct(init) by {
        forall a, b | 0 <= a < b < |init| ensures init[a] != init[b] { assert init[a] == owners[a] && init[b] == owners[b]; }
      }
      TickAllListAt(init, lists, now, replies, i);
      assert init[..i] == owners[..i];
      assert init[i] == owners[i];
      assert owners[n - 1] != owners[i];
    } else {
      assert owners[..i] == init;
    }
  }

  /** The mails of a tick over the first `i` owners are the first mails of the whole tick. */
  lemma {:induction false} TickMailsPrefixAt(owners: seq<string>, lists: map<string, seq<Entry>>, now: string, i: nat, k: nat)
    requires i <= |owners| && k < CountDueAll(owners[..i], lists, now)
    ensures k < |TickMails(owners, lists, now)|
    ensures TickMails(owners, lists, now)[k] == TickMails(owners[..i], lists, now)[k]
    decreases |owners|
  {
    var n := |owners|;
    if i < n {
      var init := owners[..n - 1];
      assert init[..i] == owners[..i];
      TickMailsPrefixAt(init, lists, now, i, k);
      assert TickMails(owners, lists, now) == TickMails(init, lists, now) + DueMails(owners[n - 1], Entries(lists, owners[n - 1]), now);
    } else {
      assert owners[..i] == owners;
    }
  }

  /** An index into the left part of a concatenation. */
  lemma ConcatLeft<T>(p: seq<T>, q: seq<T>, k: nat)
    requires k < |p|
    ensures (p + q)[k] == p[k]
  {
  }

  /** An index into the right part of a concatenation. */
  lemma ConcatRight<T>(p: seq<T>, q: seq<T>, c: nat)
    requires c < |q|
    ensures |p| + c < |p + q| && (p + q)[|p| + c] == q[c]
  {
  }

  /** The mails for the last owner's list come right after the mails for the owners before it. */
  lemma TickMailsLast(owners: seq<string>, lists: map<string, seq<Entry>>, now: string, c: nat)
    requires |owners| >= 1 && c < CountDue(Entries(lists, owners[|owners| - 1]), now)
    ensures var m := TickMails(owners, lists, now);
            var k := CountDueAll(owners[..|owners| - 1], lists, now) + c;
            k < |m| && m[k] == DueMails(owners[|owners| - 1], Entries(lists, owners[|owners| - 1]), now)[c]
  {
    var n := |owners|;
    var p := TickMails(owners[..n - 1], lists, now);
    var q := DueMails(owners[n - 1], Entries(lists, owners[n - 1]), now);
    assert TickMails(owners, lists, now) == p + q;
    ConcatRight(p, q, c);
  }

  /** The mails for owner `i`'s list follow, in one block, the mails for the owners before it. */
  lemma {:induction false} TickMailsAt(owners: seq<string>, lists: map<string, seq<Entry>>, now: string, i: nat, c: nat)
    requires i < |owners| && c < CountDue(Entries(lists, owners[i]), now)
    ensures var m := TickMails(owners, lists, now);
            var k := CountDueAll(owners[..i], lists, now) + c;
            k < |m| && m[k] == DueMails(owners[i], Entries(lists, owners[i]), now)[c]
    decreases |owners|
  {
    var n := |owners|;
    var init := owners[..n - 1];
    var p := TickMails(init, lists, now);
    var q := DueMails(owners[n - 1], Entries(lists, owners[n - 1]), now);
    assert TickMails(owners, lists, now) == p + q;
    if i == n - 1 {
      TickMailsLast(owners, lists, now, c);
    } else {
      assert init[..i] == owners[..i] && init[i] == owners[i];
      TickMailsAt(init, lists, now, i, c);
      ConcatLeft(p, q, CountDueAll(owners[..i], lists, now) + c);
    }
  }

  /**
   * What one tick does to entry `j` of owner `i`: a due entry becomes
   * `Attempted` with the reply to its own send, every other entry is left as
   * it was, and the list keeps its length.
   */
  lemma TickEntry(owners: seq<string>, lists: map<string, seq<Entry>>, now: string, replies: seq<Reply>, i: nat, j: nat)
    requires Distinct(owners)
    requires i < |owners| && j < |Entries(lists, owners[i])|
    ensures owners[i] in lists
    ensures var r := TickLists(owners, lists, now, replies);
            var u := owners[i];
            var e := lists[u][j];
            && u in r && |r[u]| == |lists[u]|
            && r[u][j] == (if Due(e, now) then Attempted(e, Answer(replies, SendIndex(owners, lists, now, i, j))) else e)
  {
    TickAllListAt(owners, lists, now, replies, i);
    TickedAt(lists[owners[i]], now, replies, CountDueAll(owners[..i], lists, now), j);
  }

  /**
   * Each due entry gets its own mail: the one at its send index, addressed to
   * its owner with the fixed subject and its body; the tick sends exactly as
   * many mails as there are due entries.
   */
  lemma TickSendsMail(owners: seq<string>, lists: map<string, seq<Entry>>, now: string, i: nat, j: nat)
    requires i < |owners| && j < |Entries(lists, owners[i])|
    requires Due(Entries(lists, owners[i])[j], now)
    ensures var m := TickMails(owners, lists, now);
            var k := SendIndex(owners, lists, now, i, j);
            && |m| == CountDueAll(owners, lists, now)
            && k < |m| && m[k] == MailFor(owners[i], Entries(lists, owners[i])[j])
  {
    var es := Entries(lists, owners[i]);
    var c := CountDue(es[..j], now);
    var k := SendIndex(owners, lists, now, i, j);
    assert k == CountDueAll(owners[..i], lists, now) + c;
    DueMailAt(owners[i], es, now, j);
    TickMailsAt(owners, lists, now, i, c);
    assert TickMails(owners, lists, now)[k] == DueMails(owners[i], es, now)[c] == MailFor(owners[i], es[j]);
  }

  /** A tick changes no entry that is already sent or timed for another minute (no backfill). */
  lemma TickOnlyTouchesDue(owners: seq<string>, lists: map<string, seq<Entry>>, now: string, replies: seq<Reply>, i: nat, j: nat)
    requires WellFormed(owners, lists)
    requires i < |owners| && j < |Entries(lists, owners[i])|
    requires !Due(lists[owners[i]][j], now)
    ensures var r := TickLists(owners, lists, now, replies);
            && r.Keys == lists.Keys && |r[owners[i]]| == |lists[owners[i]]|
            && r[owners[i]][j] == lists[owners[i]][j]
  {
    TickEntry(owners, lists, now, replies, i, j);
  }

  /**
   * A due entry ends sent whatever the reply; its time and message are kept;
   * its error becomes the gateway's error text exactly when the send failed,
   * and is left as it was after a success.
   */
  lemma TickRecordsOutcome(owners: seq<string>, lists: map<string, seq<Entry>>, now: string, replies: seq<Reply>, i: nat, j: nat)
    requires WellFormed(owners, lists)
    requires i < |owners| && j < |Entries(lists, owners[i])|
    requires Due(lists[owners[i]][j], now)
    ensures var r := TickLists(owners, lists, now, replies);
            var e := lists[owners[i]][j];
            var answer := Answer(replies, SendIndex(owners, lists, now, i, j));
            && |r[owners[i]]| == |lists[owners[i]]|
            && r[owners[i]][j].sent
            && r[owners[i]][j].time == e.time && r[owners[i]][j].msg == e.msg
            && (answer.Failed? ==> r[owners[i]][j].lastError == Some(answer.error))
            && (answer.Delivered? ==> r[owners[i]][j].lastError == e.lastError)
  {
    TickEntry(owners, lists, now, replies, i, j);
  }

  /** `sent` never goes back from true to false: a sent entry stays exactly as it was. */
  lemma TickMonotone(owners: seq<string>, lists: map<string, seq<Entry>>, now: string, replies: seq<Reply>, i: nat, j: nat)
    requires WellFormed(owners, lists)
    requires i < |owners| && j < |Entries(lists, owners[i])|
    requires lists[owners[i]][j].sent
    ensures var r := TickLists(owners, lists, now, replies);
            |r[owners[i]]| == |lists[owners[i]]| && r[owners[i]][j] == lists[owners[i]][j]
  {
    TickEntry(owners, lists, now, replies, i, j);
  }

  /** A list counts no due entry exactly when none of its entries is due. */
  lemma {:induction false} CountDueZero(es: seq<Entry>, now: string)
    ensures CountDue(es, now) == 0 <==> forall j :: 0 <= j < |es| ==> !Due(es[j], now)
    decreases |es|
  {
    if es != [] {
      var init := es[..|es| - 1];
      CountDueZero(init, now);
      assert forall j :: 0 <= j < |init| ==> init[j] == es[j];
    }
  }

  /** A list after a tick has no entry due in the same minute. */
  lemma TickedSettles(es: seq<Entry>, now: string, replies: seq<Reply>, base: nat)
    ensures CountDue(Ticked(es, now, replies, base), now) == 0
  {
    var r := Ticked(es, now, replies, base);
    forall j | 0 <= j < |r| ensures !Due(r[j], now) {
      TickedAt(es, now, replies, base, j);
    }
    CountDueZero(r, now);
  }

  /** A list with nothing due is left as it is and sends nothing. */
  lemma TickedQuiet(owner: string, es: seq<Entry>, now: string, replies: seq<Reply>, base: nat)
    requires CountDue(es, now) == 0
    ensures Ticked(es, now, replies, base) == es && DueMails(owner, es, now) == []
  {
    CountDueZero(es, now);
    var r := Ticked(es, now, replies, base);
    forall j | 0 <= j < |r| ensures r[j] == es[j] {
      TickedAt(es, now, replies, base, j);
    }
  }

  /** A registry whose owners have no due entry counts none. */
  lemma {:induction false} CountDueAllZero(owners: seq<string>, lists: map<string, seq<Entry>>, now: string)
    requires forall k :: 0 <= k < |owners| ==> CountDue(Entries(lists, owners[k]), now) == 0
    ensures CountDueAll(owners, lists, now) == 0
    decreases |owners|
  {
    if owners != [] {
      var init := owners[..|owners| - 1];
      assert forall k :: 0 <= k < |init| ==> init[k] == owners[k];
      CountDueAllZero(init, lists, now);
    }
  }

  /** After a tick, nothing in the registry is due in the same minute. */
  lemma TickAllSettles(owners: seq<string>, lists: map<string, seq<Entry>>, now: string, replies: seq<Reply>)
    requires WellFormed(owners, lists)
    ensures CountDueAll(owners, TickLists(owners, lists, now, replies), now) == 0
  {
    var r := TickLists(owners, lists, now, replies);
    forall k | 0 <= k < |owners| ensures CountDue(Entries(r, owners[k]), now) == 0 {
      TickAllListAt(owners, lists, now, replies, k);
      TickedSettles(lists[owners[k]], now, replies, CountDueAll(owners[..k], lists, now));
    }
    CountDueAllZero(owners, r, now);
  }

  /** A tick over a registry with nothing due sends nothing and changes nothing. */
  lemma {:induction false} TickQuiet(owners: seq<string>, lists: map<string, seq<Entry>>, now: string, replies: seq<Reply>)
    requires CountDueAll(owners, lists, now) == 0
    ensures TickLists(owners, lists, now, replies) == lists && TickMails(owners, lists, now) == []
    decreases |owners|
  {
    if owners != [] {
      var init := owners[..|owners| - 1];
      var u := owners[|owners| - 1];
      assert CountDueAll(init, lists, now) == 0 && CountDue(Entries(lists, u), now) == 0;
      TickQuiet(init, lists, now, replies);
      TickedQuiet(u, Entries(lists, u), now, replies, 0);
      if u in lists {
        assert lists[u := lists[u]] == lists;
      }
    }
  }

  /** A second tick in the same minute, whatever the gateway answers, sends nothing and changes nothing. */
  lemma TickIdempotent(owners: seq<string>, lists: map<string, seq<Entry>>, now: string, replies: seq<Reply>, replies2: seq<Reply>)
    requires WellFormed(owners, lists)
    ensures var r := TickLists(owners, lists, now, replies);
            TickLists(owners, r, now, replies2) == r && TickMails(owners, r, now) == []
  {
    TickAllSettles(owners, lists, now, replies);
    TickQuiet(owners, TickLists(owners, lists, now, replies), now, replies2);
  }

  /** Several ticks at the same minute, the n-th answered by `rounds[n]`: the final registry and all mails sent. */
  function TickRepeatedly(owners: seq<string>, lists: map<string, seq<Entry>>, now: string, rounds: seq<seq<Reply>>)
    : (r: (map<string, seq<Entry>>, seq<Mail>))
    ensures r.0.Keys == lists.Keys
    decreases |rounds|
  {
    if rounds == [] then (lists, [])
    else
      var p := TickRepeatedly(owners, lists, now, rounds[..|rounds| - 1]);
      (TickLists(owners, p.0, now, rounds[|rounds| - 1]), p.1 + TickMails(owners, p.0, now))
  }

  /** Any number of ticks in one minute send, in all, exactly what the first tick sends: at most one attempt per entry. */
  lemma {:induction false} RepeatedTicksSendOnce(owners: seq<string>, lists: map<string, seq<Entry>>, now: string, rounds: seq<seq<Reply>>)
    requires WellFormed(owners, lists)
    requires |rounds| >= 1
    ensures TickRepeatedly(owners, lists, now, rounds)
         == (TickLists(owners, lists, now, rounds[0]), TickMails(owners, lists, now))
    decreases |rounds|
  {
    var first := TickLists(owners, lists, now, rounds[0]);
    var sent := TickMails(owners, lists, now);
    if |rounds| == 1 {
      assert rounds[..0] == [];
      assert [] + sent == sent;
    } else {
      var init := rounds[..|rounds| - 1];
      var last := rounds[|rounds| - 1];
      assert init[0] == rounds[0];
      var p := TickRepeatedly(owners, lists, now, init);
      RepeatedTicksSendOnce(owners, lists, now, init);
      assert p == (first, sent);
      TickIdempotent(owners, lists, now, rounds[0], last);
      assert TickLists(owners, first, now, last) == first && TickMails(owners, first, now) == [];
      assert TickRepeatedly(owners, lists, now, rounds) == (TickLists(owners, p.0, now, last), p.1 + TickMails(owners, p.0, now));
      assert sent + [] == sent;
    }
  }

  /** One more entry of a list adds its mail, if it is due, to the mails of the entries before it. */
  lemma DueMailsStep(owner: string, es: seq<Entry>, now: string, j: nat)
    requires j < |es|
    ensures DueMails(owner, es[..j + 1], now)
         == DueMails(owner, es[..j], now) + (if Due(es[j], now) then [MailFor(owner, es[j])] else [])
  {
    assert es[..j + 1][..j] == es[..j];
  }

  /** Ticking one more owner of the registry extends the tick over the owners before it. */
  lemma TickStep(owners: seq<string>, lists: map<string, seq<Entry>>, now: string, replies: seq<Reply>, i: nat)
    requires i < |owners| && owners[i] in lists
    ensures var u := owners[i];
            && TickLists(owners[..i + 1], lists, now, replies)
               == TickLists(owners[..i], lists, now, replies)[u := Ticked(lists[u], now, replies, CountDueAll(owners[..i], lists, now))]
            && TickMails(owners[..i + 1], lists, now) == TickMails(owners[..i], lists, now) + DueMails(u, lists[u], now)
  {
    assert owners[..i + 1][..i] == owners[..i];
  }

  /** An entry added for minute `at` is due at minute `now` exactly when `now` is `at` (before any tick sent it). */
  lemma AddedEntryDueExactlyAt(at: Minute, now: Minute, msg: string)
    requires at.Valid() && now.Valid()
    ensures Due(NewEntry(HHMM(at), msg), HHMM(now)) <==> at == now
  {
    HHMMInjective(at, now);
  }

  /**
   * One pass of the inner loop over entry `rem`, after the tick has sent
   * `mails`: a due entry is mailed to `user`, marked sent and, when the
   * gateway answers that send with an error, given that error text; any
   * other entry is kept and nothing is sent.
   */
  method DispatchOne(user: string, rem: Entry, now: string, replies: seq<Reply>, mails: seq<Mail>)
    returns (marked: Entry, mails': seq<Mail>)
    ensures Due(rem, now) ==> marked == Attempted(rem, Answer(replies, |mails|)) && mails' == mails + [MailFor(user, rem)]
    ensures !Due(rem, now) ==> marked == rem && mails' == mails
  {
    marked, mails' := rem, mails;
    if !rem.sent && rem.time == now {
      var answer := Answer(replies, |mails|);
      mails' := mails + [MailFor(user, rem)];
      marked := rem.(sent := true);
      if answer.Failed? {
        marked := marked.(lastError := Some(answer.error));
      }
    }
  }

  /**
   * The inner loop of a tick over one owner's entries: every entry not yet
   * sent whose time is `now` is mailed to `user` and marked sent, and a failed
   * send also records the gateway's error text. `sentBefore` are the mails the
   * tick sent before this list; the result extends them.
   */
  method DispatchList(user: string, entries: seq<Entry>, now: string, replies: seq<Reply>, sentBefore: seq<Mail>)
    returns (updated: seq<Entry>, mails: seq<Mail>)
    ensures updated == Ticked(entries, now, replies, |sentBefore|)
    ensures mails == sentBefore + DueMails(user, entries, now)
  {
    updated := entries;
    mails := sentBefore;
    var j := 0;
    while j < |entries|
      invariant 0 <= j <= |entries| && |updated| == |entries|
      invariant forall k :: 0 <= k < j ==> updated[k] == Ticked(entries, now, replies, |sentBefore|)[k]
      invariant forall k :: j <= k < |entries| ==> updated[k] == entries[k]
      invariant mails == sentBefore + DueMails(user, entries[..j], now)
    {
      var rem := entries[j];
      DueMailsStep(user, entries, now, j);
      TickedAt(entries, now, replies, |sentBefore|, j);
      var marked;
      marked, mails := DispatchOne(user, rem, now, replies, mails);
      updated := updated[j := marked];
      j := j + 1;
    }
    assert entries[..j] == entries;
  }

  /**
   * The registry held in the session: the owners in the dictionary's insertion
   * order and each owner's list of entries.
   */
  class Registry {
    var owners: seq<string>
    var lists: map<string, seq<Entry>>

    ghost predicate Valid()
      reads this
    {
      WellFormed(owners, lists)
    }

    /** The empty registry the session starts with. */
    constructor ()
      ensures Valid() && owners == [] && lists == map[]
    {
      owners := [];
      lists := map[];
    }

    /**
     * The add path of the reminder page: with no logged-in user nothing
     * changes; otherwise one new, unsent entry for `at` is appended to the end
     * of the user's list (an absent user starts from an empty list and becomes
     * the last key), and every other list is left as it was.
     */
    method Add(user: string, at: Minute, msg: string) returns (ok: bool)
      requires Valid() && at.Valid()
      modifies this
      ensures Valid()
      ensures ok <==> user != ""
      ensures !ok ==> owners == old(owners) && lists == old(lists)
      ensures ok ==> lists == old(lists)[user := Entries(old(lists), user) + [NewEntry(HHMM(at), msg)]]
      ensures ok ==> owners == if user in old(lists) then old(owners) else old(owners) + [user]
    {
      if user == "" {
        return false;
      }
      var time := HHMM(at);
      var reminders := Entries(lists, user);
      reminders := reminders + [NewEntry(time, msg)];
      if user !in lists {
        owners := owners + [user];
      }
      lists := lists[user := reminders];
      ok := true;
    }

    /**
     * One tick of the dispatcher at minute `now`: every entry not yet sent
     * whose time is `now` is mailed to its owner and marked sent; a failed
     * send also records the gateway's error text. The gateway answers the
     * k-th send with `replies[k]`. Returns the mails sent, in order.
     */
    method Tick(now: Minute, replies: seq<Reply>) returns (mails: seq<Mail>)
      requires Valid() && now.Valid()
      requires |replies| >= CountDueAll(owners, lists, HHMM(now))
      modifies this
      ensures Valid() && owners == old(owners)
      ensures lists == TickLists(owners, old(lists), HHMM(now), replies)
      ensures mails == TickMails(owners, old(lists), HHMM(now))
    {
      var nowStr := HHMM(now);
      mails := [];
      var i := 0;
      while i < |owners|
        invariant 0 <= i <= |owners| && owners == old(owners)
        invariant lists == TickLists(owners[..i], old(lists), nowStr, replies)
        invariant mails == TickMails(owners[..i], old(lists), nowStr)
      {
        var user := owners[i];
        assert user !in owners[..i];
        TickAllOutside(owners[..i], old(lists), nowStr, replies, user);
        TickStep(owners, old(lists), nowStr, replies, i);
        var userReminders;
        userReminders, mails := DispatchList(user, lists[user], nowStr, replies, mails);
        lists := lists[user := userReminders];
        i := i + 1;
      }
      assert owners[..i] == owners;
    }
  }
}
