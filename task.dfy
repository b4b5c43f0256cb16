/**
 * The task service (app/service/task.js): firing one reminder, the close-or-
 * continue step `_schedule`, the preview of upcoming firings, and duplicating
 * a task. Its collaborators are abstract state: the delay queue is the
 * sequence of entries sent to it, the remind log and the notification calls
 * are append-only sequences, tasks and reminders are maps by id.
 */
module TaskService {
  import opened Wrappers
  import Decimal
  import Activation
  import Repeat

  datatype Context = Context(id: int, name: string)

  datatype Task = Task(
    id: nat, brief: string, detail: string, device: string,
    icon: string, iconFile: string, state: string)

  /**
   * The fields of a reminder the service reads. Its own behaviour (`close`,
   * `isRepeated`) belongs to a class outside this model and is injected into
   * the service as two functions.
   */
  datatype Reminder = Reminder(
    id: nat, taskId: nat, context: Option<Context>,
    restrictedHours: Option<seq<bool>>, timestamp: int)

  /** A message of the delay queue: the task to fire, when (seconds), and for which reminder. */
  datatype QueueEntry = QueueEntry(taskId: nat, fireAt: int, remindId: nat)

  datatype LogRow = LogRow(planAlarmAt: int, realAlarmAt: int, taskId: nat)

  /** What `remind.notify` is called with. */
  datatype Payload = Payload(
    remindId: nat, alarmAt: int, brief: string, detail: string,
    device: string, icon: string, taskId: nat)

  /** The body of the notifier's stdout once `JSON.parse` has run on it. */
  datatype Parsed = Malformed | Json(activation: Option<string>)

  /**
   * What the notifier returned: no usable stdout (no result, no `stdout`, or
   * not a string), or a stdout text together with what parsing it gives.
   * `Json(None)` stands for any parsed value without a string `activationValue`.
   */
  datatype Reply = NoStdout | Stdout(text: string, parsed: Parsed)

  datatype Outcome =
    | TaskMissing | Inactive | ContextMismatch
    | Snoozed(fireAt: int) | Scheduled | MalformedReply

  datatype Following = Following(planAlarmAt: int, task: Task)

  const HalfDayMs: nat := 12 * 60 * 60 * 1000

  /** `Math.round(ms / 1000)`: the nearest second, halves rounded up. */
  function RoundSeconds(ms: int): (s: int)
    ensures 1000 * s - 500 <= ms < 1000 * s + 500
  {
    (ms + 500) / 1000
  }

  /** The parse of stdout throws: a non-empty stdout that is not JSON. */
  predicate ParseFails(reply: Reply) {
    reply.Stdout? && |reply.text| > 0 && reply.parsed.Malformed?
  }

  /**
   * The directive the reply carries. Only a string activation value of a
   * non-empty, parsed stdout is read; an empty stdout is never parsed.
   */
  function ReplyDirective(reply: Reply): (d: Activation.Directive)
    requires !ParseFails(reply)
    ensures d != Activation.NoDirective ==>
      && reply.Stdout? && |reply.text| > 0
      && reply.parsed.Json? && reply.parsed.activation.Some?
      && d == Activation.Parse(reply.parsed.activation.value)
    ensures reply.NoStdout? || |reply.text| == 0 || reply.parsed.activation.None? ==>
      d == Activation.NoDirective
    ensures reply.Stdout? && |reply.text| > 0 && reply.parsed.Json? && reply.parsed.activation.Some? ==>
      d == Activation.Parse(reply.parsed.activation.value)
  {
    if reply.Stdout? && |reply.text| > 0 && reply.parsed.activation.Some? then
      Activation.Parse(reply.parsed.activation.value)
    else
      Activation.NoDirective
  }

  /** Firing: the reminder's context (if any) is the device's current one, compared by name. */
  predicate ContextMatches(r: Reminder, current: Option<string>) {
    r.context.None? || current == Some(r.context.value.name)
  }

  /** Preview: unless either side has no context, the reminder's context is the given one, compared by id. */
  predicate ContextAgreesById(r: Reminder, context: Option<Context>) {
    !(context.Some? && r.context.Some? && r.context.value.id != context.value.id)
  }

  /**
   * Firing and the preview compare a reminder's context with the device's in
   * different ways: firing looks only at the name, the preview only at the
   * id. So the two tests disagree, in both directions, on one and the same
   * reminder and device context.
   */
  lemma FiringVersusPreviewContext(r: Reminder, device: Context, id: int, name: string)
    requires r.context.Some?
    ensures ContextMatches(r.(context := Some(Context(id, r.context.value.name))), Some(device.name))
         == ContextMatches(r, Some(device.name))
    ensures ContextAgreesById(r.(context := Some(Context(r.context.value.id, name))), Some(device))
         == ContextAgreesById(r, Some(device))
    ensures r.context.value.name == device.name && r.context.value.id != device.id ==>
      ContextMatches(r, Some(device.name)) && !ContextAgreesById(r, Some(device))
    ensures r.context.value.id == device.id && r.context.value.name != device.name ==>
      !ContextMatches(r, Some(device.name)) && ContextAgreesById(r, Some(device))
    ensures exists c: Context :: ContextMatches(r.(context := Some(c)), Some(device.name))
                                 && !ContextAgreesById(r.(context := Some(c)), Some(device))
    ensures exists c: Context :: !ContextMatches(r.(context := Some(c)), Some(device.name))
                                 && ContextAgreesById(r.(context := Some(c)), Some(device))
  {
    var same := Context(device.id + 1, device.name);
    assert ContextMatches(r.(context := Some(same)), Some(device.name))
        && !ContextAgreesById(r.(context := Some(same)), Some(device));
    var other := Context(device.id, device.name + "'");
    assert |other.name| != |device.name|;
    assert !ContextMatches(r.(context := Some(other)), Some(device.name))
        && ContextAgreesById(r.(context := Some(other)), Some(device));
  }

  /**
   * The earliest of today's 08:00 plus a whole number of half days that is
   * not before `now` (milliseconds).
   */
  function EightOClockTarget(today08: int, now: int): (t: int)
    ensures t >= now && t >= today08
    ensures (t - today08) % HalfDayMs == 0
    ensures t == today08 || t - HalfDayMs < now
  {
    if today08 >= now then today08
    else today08 + Repeat.CatchUpSteps(today08, now, HalfDayMs) * HalfDayMs
  }

  /** The `8点` snooze loop: add half days to today's 08:00 until it is not before `now`. */
  method NextEightOClock(today08: int, now: int) returns (fireAt: int)
    ensures fireAt == EightOClockTarget(today08, now)
  {
    fireAt := today08;
    ghost var k: nat := 0;
    while fireAt < now
      invariant fireAt == today08 + k * HalfDayMs
      invariant k == 0 || fireAt - HalfDayMs < now
      decreases now - fireAt
    {
      fireAt := fireAt + HalfDayMs;
      k := k + 1;
    }
    var target := EightOClockTarget(today08, now);
    ghost var m: nat := (target - today08) / HalfDayMs;
    assert target == today08 + m * HalfDayMs;
    if m > 0 {
      Repeat.MultiplyMonotone(k, m - 1, HalfDayMs);
    }
    if k > 0 {
      Repeat.MultiplyMonotone(m, k - 1, HalfDayMs);
    }
  }

  const CopyPrefix: string := "复制自"

  /** The detail of a copy: "复制自<id> " followed by the original detail. */
  function DuplicateDetail(t: Task): string {
    CopyPrefix + Decimal.NatToString(t.id) + " " + t.detail
  }

  /** Reads back the source id and the original detail from a copy's detail. */
  function CopiedFrom(d: string): Option<(nat, string)> {
    if |d| >= |CopyPrefix| && d[..|CopyPrefix|] == CopyPrefix then
      var e := Activation.RunEnd(d, |CopyPrefix|);
      if |CopyPrefix| < e < |d| && d[e] == ' ' then
        Some((Decimal.Value(d[|CopyPrefix|..e]), d[e + 1..]))
      else None
    else None
  }

  /** A copy's detail names the task it was copied from and keeps its detail intact. */
  lemma DuplicateDetailRoundTrip(t: Task)
    ensures CopiedFrom(DuplicateDetail(t)) == Some((t.id, t.detail))
  {
    var digits := Decimal.NatToString(t.id);
    var d := DuplicateDetail(t);
    var e := |CopyPrefix| + |digits|;
    assert d == CopyPrefix + digits + " " + t.detail;
    assert d[..|CopyPrefix|] == CopyPrefix;
    assert d[|CopyPrefix|..e] == digits;
    assert d[e] == ' ';
    assert d[e + 1..] == t.detail;
    Activation.RunEndAt(d, |CopyPrefix|, e);
    Decimal.ValueOfNatToString(t.id);
  }

  /** The preview keeps a queue message exactly when none of the source's skip conditions holds. */
  ghost predicate Shown(
    tasks: map<nat, Task>, reminds: map<nat, Reminder>, m: QueueEntry,
    context: Option<Context>, localHour: int -> nat)
  {
    && m.remindId in reminds
    && reminds[m.remindId].taskId in tasks
    && tasks[reminds[m.remindId].taskId].state == "active"
    && ContextAgreesById(reminds[m.remindId], context)
    && (reminds[m.remindId].restrictedHours.Some? ==>
         var mask := reminds[m.remindId].restrictedHours.value;
         localHour(m.fireAt) < |mask| && mask[localHour(m.fireAt)])
  }

  /** The row the preview shows for a kept message. */
  function ShownAs(tasks: map<nat, Task>, reminds: map<nat, Reminder>, m: QueueEntry): Following
    requires m.remindId in reminds && reminds[m.remindId].taskId in tasks
  {
    Following(m.fireAt, tasks[reminds[m.remindId].taskId])
  }

  /** The preview of `messages`, in queue order. */
  ghost function Preview(
    tasks: map<nat, Task>, reminds: map<nat, Reminder>, messages: seq<QueueEntry>,
    context: Option<Context>, localHour: int -> nat): seq<Following>
  {
    if messages == [] then []
    else
      var m := messages[|messages| - 1];
      Preview(tasks, reminds, messages[..|messages| - 1], context, localHour)
      + if Shown(tasks, reminds, m, context, localHour) then [ShownAs(tasks, reminds, m)] else []
  }

  /**
   * The preview is an order-preserving selection: `pos` lists, in increasing
   * order, the indices of exactly the messages that pass every check, and the
   * preview shows those messages' planned times and tasks.
   */
  lemma {:induction false} PreviewSelects(
    tasks: map<nat, Task>, reminds: map<nat, Reminder>, messages: seq<QueueEntry>,
    context: Option<Context>, localHour: int -> nat) returns (pos: seq<nat>)
    ensures |pos| == |Preview(tasks, reminds, messages, context, localHour)|
    ensures forall j :: 0 <= j < |pos| ==> pos[j] < |messages|
    ensures forall j, j' :: 0 <= j < j' < |pos| ==> pos[j] < pos[j']
    ensures forall i :: 0 <= i < |messages| ==>
      (i in pos <==> Shown(tasks, reminds, messages[i], context, localHour))
    ensures forall j :: 0 <= j < |pos| ==>
      Shown(tasks, reminds, messages[pos[j]], context, localHour)
      && Preview(tasks, reminds, messages, context, localHour)[j] == ShownAs(tasks, reminds, messages[pos[j]])
  {
    if messages == [] {
      pos := [];
    } else {
      var n := |messages| - 1;
      var init := messages[..n];
      var earlier := PreviewSelects(tasks, reminds, init, context, localHour);
      assert forall i :: 0 <= i < n ==> init[i] == messages[i];
      if Shown(tasks, reminds, messages[n], context, localHour) {
        pos := earlier + [n];
      } else {
        pos := earlier;
      }
    }
  }

  /** The service and the state of the collaborators it drives. */
  class Service {
    var tasks: map<nat, Task>
    var reminds: map<nat, Reminder>
    var queue: seq<QueueEntry>
    var remindLog: seq<LogRow>
    var notified: seq<Payload>
    /** Calls of the reminder service's `duplicate(remind, copyId)`, by reminder id. */
    var duplicated: seq<(nat, nat)>
    /** The id the task table hands out next. */
    var nextId: nat
    const close: Reminder -> Reminder
    const isRepeated: Reminder -> bool

    ghost predicate Valid()
      reads this
    {
      forall id :: id in tasks ==> id < nextId && tasks[id].id == id
    }

    constructor (close: Reminder -> Reminder, isRepeated: Reminder -> bool)
      ensures Valid()
      ensures this.close == close && this.isRepeated == isRepeated
      ensures tasks == map[] && reminds == map[] && queue == [] && remindLog == []
      ensures notified == [] && duplicated == [] && nextId == 0
    {
      this.close := close;
      this.isRepeated := isRepeated;
      tasks, reminds, queue, remindLog, notified, duplicated, nextId :=
        map[], map[], [], [], [], [], 0;
    }

    /**
     * The state after `_schedule(remind)`, given the reminders and the queue
     * before it: the reminder is closed; only a repeating one is stored again
     * and sent to the queue at its own timestamp.
     */
    ghost predicate ScheduledFrom(remind: Reminder, reminds0: map<nat, Reminder>, queue0: seq<QueueEntry>, after: Reminder)
      reads this
    {
      && after == close(remind)
      && reminds == (if isRepeated(after) then reminds0[after.id := after] else reminds0)
      && queue == queue0 + (if isRepeated(after) then [QueueEntry(after.taskId, after.timestamp, after.id)] else [])
    }

    /** `_schedule(remind)`: close the reminder and continue its recurrence if it repeats. */
    method Schedule(remind: Reminder) returns (after: Reminder)
      modifies this
      ensures ScheduledFrom(remind, old(reminds), old(queue), after)
      ensures tasks == old(tasks) && remindLog == old(remindLog) && notified == old(notified)
      ensures duplicated == old(duplicated) && nextId == old(nextId)
    {
      after := close(remind);
      if isRepeated(after) {
        reminds := reminds[after.id := after];
        queue := queue + [QueueEntry(after.taskId, after.timestamp, after.id)];
      }
    }

    /**
     * `remind(id, alarmAt, remind)`: one firing of reminder `remind` for task
     * `id`, planned at `alarmAt` (seconds). The device's context, the clock
     * (`now`, and today's 08:00 as `today08`, both in milliseconds) and what
     * the notifier answers (`reply`) are inputs. `after` is the reminder
     * object as the caller sees it afterwards.
     */
    method Remind(
      id: nat, alarmAt: int, remind: Reminder, current: Option<string>,
      now: int, today08: int, reply: Reply)
      returns (outcome: Outcome, after: Reminder)
      requires Valid()
      modifies this
      ensures Valid()
      ensures tasks == old(tasks) && duplicated == old(duplicated) && nextId == old(nextId)
      // A missing task is dereferenced and the call throws before any effect.
      ensures outcome == TaskMissing <==> id !in tasks
      // An inactive task: nothing is logged, notified, sent or closed.
      ensures outcome == Inactive <==> id in tasks && tasks[id].state != "active"
      ensures outcome in {TaskMissing, Inactive} ==>
        && remindLog == old(remindLog) && notified == old(notified)
        && queue == old(queue) && reminds == old(reminds) && after == remind
      // Another context: no log row and no notification, straight to `_schedule`.
      ensures outcome == ContextMismatch <==>
        id in tasks && tasks[id].state == "active" && !ContextMatches(remind, current)
      ensures outcome == ContextMismatch ==>
        && remindLog == old(remindLog) && notified == old(notified)
        && ScheduledFrom(remind, old(reminds), old(queue), after)
      // Delivery: one log row, then one notification.
      ensures outcome !in {TaskMissing, Inactive, ContextMismatch} <==>
        id in tasks && tasks[id].state == "active" && ContextMatches(remind, current)
      ensures outcome !in {TaskMissing, Inactive, ContextMismatch} ==>
        && remindLog == old(remindLog) + [LogRow(alarmAt, RoundSeconds(now), id)]
        && notified == old(notified) + [Payload(remind.id, alarmAt,
             "#" + Decimal.NatToString(id) + " " + tasks[id].brief,
             tasks[id].detail, tasks[id].device, tasks[id].icon, id)]
      // After delivery, a stdout that is not JSON throws.
      ensures outcome == MalformedReply ==>
        ParseFails(reply) && queue == old(queue) && reminds == old(reminds) && after == remind
      ensures outcome !in {TaskMissing, Inactive, ContextMismatch, MalformedReply} ==> !ParseFails(reply)
      // The directives, in their order of priority; a snooze neither closes nor stores the reminder.
      ensures outcome.Snoozed? ==>
        (reminds == old(reminds) && after == remind
         && queue == old(queue) + [QueueEntry(id, outcome.fireAt, remind.id)])
      ensures outcome.Snoozed? && ReplyDirective(reply).SnoozeMinutes? ==>
        outcome.fireAt == RoundSeconds(now) + 60 * ReplyDirective(reply).minutes
      ensures outcome.Snoozed? && ReplyDirective(reply).UntilEight? ==>
        outcome.fireAt == RoundSeconds(EightOClockTarget(today08, now))
      ensures outcome.Snoozed? && ReplyDirective(reply).SnoozeHours? ==>
        outcome.fireAt == RoundSeconds(now) + 3600 * ReplyDirective(reply).hours
      ensures outcome.Snoozed? <==>
        outcome !in {TaskMissing, Inactive, ContextMismatch, MalformedReply}
        && ReplyDirective(reply) != Activation.NoDirective
      // No directive: `_schedule`.
      ensures outcome == Scheduled ==>
        (ReplyDirective(reply) == Activation.NoDirective
         && ScheduledFrom(remind, old(reminds), old(queue), after))
    {
      if id !in tasks {
        return TaskMissing, remind;
      }
      var task := tasks[id];
      after := remind;
      if task.state != "active" {
        outcome := Inactive;
      } else if ContextMatches(remind, current) {
        var nowSec := RoundSeconds(now);
        remindLog := remindLog + [LogRow(alarmAt, nowSec, id)];
        notified := notified + [Payload(remind.id, alarmAt,
          "#" + Decimal.NatToString(task.id) + " " + task.brief,
          task.detail, task.device, task.icon, task.id)];
        if ParseFails(reply) {
          return MalformedReply, remind;
        }
        match ReplyDirective(reply)
        case SnoozeMinutes(minutes) =>
          outcome := Snoozed(nowSec + minutes * 60);
          queue := queue + [QueueEntry(task.id, outcome.fireAt, remind.id)];
        case UntilEight =>
          var consumeUntil := NextEightOClock(today08, now);
          outcome := Snoozed(RoundSeconds(consumeUntil));
          queue := queue + [QueueEntry(task.id, outcome.fireAt, remind.id)];
        case SnoozeHours(hours) =>
          outcome := Snoozed(nowSec + hours * 60 * 60);
          queue := queue + [QueueEntry(task.id, outcome.fireAt, remind.id)];
        case NoDirective =>
          after := Schedule(remind);
          outcome := Scheduled;
      } else {
        after := Schedule(remind);
        outcome := ContextMismatch;
      }
    }

    /**
     * `getFollowing(context)` over the messages the queue lists: skip a message
     * whose reminder or task is gone, whose task is not active, whose
     * reminder's context differs by id from the given one, or whose planned
     * hour the reminder's restricted hours exclude.
     */
    method GetFollowing(messages: seq<QueueEntry>, context: Option<Context>, localHour: int -> nat)
      returns (shown: seq<Following>)
      ensures shown == Preview(tasks, reminds, messages, context, localHour)
    {
      shown := [];
      for i := 0 to |messages|
        invariant shown == Preview(tasks, reminds, messages[..i], context, localHour)
      {
        assert messages[..i + 1][..i] == messages[..i];
        var message := messages[i];
        if message.remindId !in reminds {
          continue;
        }
        var remind := reminds[message.remindId];
        if remind.taskId !in tasks {
          continue;
        }
        var task := tasks[remind.taskId];
        if task.state != "active" {
          continue;
        }
        if context.Some? && remind.context.Some? && remind.context.value.id != context.value.id {
          continue;
        }
        var hour := localHour(message.fireAt);
        if remind.restrictedHours.Some? && !(hour < |remind.restrictedHours.value| && remind.restrictedHours.value[hour]) {
          continue;
        }
        shown := shown + [Following(message.fireAt, task)];
      }
      assert messages[..|messages|] == messages;
    }

    /** `create`: a new active task row without context or reminder. */
    method Create(brief: string, detail: string, device: string, icon: string, iconFile: string)
      returns (task: Task)
      requires Valid()
      modifies this
      ensures Valid()
      ensures task == Task(old(nextId), brief, detail, device, icon, iconFile, "active")
      ensures task.id !in old(tasks) && tasks == old(tasks)[task.id := task]
      ensures nextId == old(nextId) + 1
      ensures reminds == old(reminds) && queue == old(queue) && remindLog == old(remindLog)
      ensures notified == old(notified) && duplicated == old(duplicated)
    {
      task := Task(nextId, brief, detail, device, icon, iconFile, "active");
      tasks := tasks[nextId := task];
      nextId := nextId + 1;
    }

    /**
     * `duplicate(task)`: an active copy with the detail prefixed by the source
     * id, then one duplication request per reminder of the source task.
     */
    method Duplicate(task: Task) returns (copy: Option<Task>)
      requires Valid()
      modifies this
      ensures Valid()
      ensures copy == Some(Task(old(nextId), task.brief, DuplicateDetail(task), task.device, task.icon, task.iconFile, "active"))
      ensures old(nextId) !in old(tasks) && tasks == old(tasks)[old(nextId) := copy.value]
      ensures |duplicated| == |old(duplicated)| + |set rid | rid in old(reminds) && old(reminds)[rid].taskId == task.id|
      ensures duplicated[..|old(duplicated)|] == old(duplicated)
      ensures forall p :: p in duplicated[|old(duplicated)|..] <==>
        p.1 == old(nextId) && p.0 in old(reminds) && old(reminds)[p.0].taskId == task.id
      ensures reminds == old(reminds) && queue == old(queue) && remindLog == old(remindLog)
      ensures notified == old(notified) && nextId == old(nextId) + 1
    {
      var created := Create(task.brief, DuplicateDetail(task), task.device, task.icon, task.iconFile);
      var found := set rid | rid in reminds && reminds[rid].taskId == task.id;
      var pending := found;
      ghost var start := |duplicated|;
      while pending != {}
        invariant pending <= found
        invariant Valid() && tasks == old(tasks)[created.id := created] && nextId == old(nextId) + 1
        invariant reminds == old(reminds) && queue == old(queue) && remindLog == old(remindLog)
        invariant notified == old(notified)
        invariant |duplicated| == start + |found - pending|
        invariant duplicated[..start] == old(duplicated)
        invariant forall p :: p in duplicated[start..] <==> p.1 == created.id && p.0 in found - pending
        decreases |pending|
      {
        var rid :| rid in pending;
        ghost var before := duplicated;
        duplicated := duplicated + [(rid, created.id)];
        assert duplicated[start..] == before[start..] + [(rid, created.id)];
        assert found - (pending - {rid}) == (found - pending) + {rid};
        pending := pending - {rid};
      }
      copy := if created.id in tasks then Some(tasks[created.id]) else None;
    }
  }
}
