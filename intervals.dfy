/** The values the intersection passes work on. Times of day are whole minutes since
    midnight: `timedelta(hours=h, minutes=m)` is 60 * h + m, and the seconds of a `time`
    play no part. */
module Intervals {

  /** A time of day, 00:00 to 23:59, in minutes since midnight. */
  type Minute = m: int | 0 <= m < 1440

  /** One `(start, end, user_id)` entry of a day's availability list. */
  datatype Slot = Slot(start: Minute, end: Minute, uid: int)

  /** One `(start, end)` entry of a user's list in the pairwise merge. */
  datatype Range = Range(start: Minute, end: Minute)

  /** One emitted `(start, end, count)` time block. */
  datatype Block = Block(start: Minute, end: Minute, count: nat)

  /** The distinct user ids of a day's list. */
  function UidSet(slots: seq<Slot>): set<int> {
    set k | 0 <= k < |slots| :: slots[k].uid
  }

  /** Some interval of user `u` contains the whole of `[start, end]`. */
  predicate UserCovers(slots: seq<Slot>, u: int, start: int, end: int) {
    exists k :: 0 <= k < |slots| && slots[k].uid == u && slots[k].start <= start && end <= slots[k].end
  }

  /** The users one of whose intervals contains `[start, end]`. */
  function Supporters(slots: seq<Slot>, start: int, end: int): set<int> {
    set k | 0 <= k < |slots| && slots[k].start <= start && end <= slots[k].end :: slots[k].uid
  }
}

/** The exceptions the intersection code can raise, as values. */
module Outcomes {
  datatype Failure =
    | EventNotFound     // `ValueError`: no event with the given id
    | IndexOutOfRange   // `IndexError`: `user_ids[0]` on an empty list
    | UnorderableKeys   // `TypeError`: the sort compares a `date` with a `float`

  datatype Result<T> = Ok(value: T) | Err(failure: Failure)

  datatype Option<T> = None | Some(value: T)
}
