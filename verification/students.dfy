/**
 The in-memory student record the matching functions work on, and the
 session value that scheduling appends to two such records.

 The record class itself is not part of this model; only the attributes the
 matching functions reach through their getters are kept, plus an object
 identity, because the partner search compares students by identity.
 */
module Students {

  type Name = string
  type Grade = string
  type Interest = string
  type Day = string
  type TimeRange = string

  /** An optional value: the partner search reports "no partner" as None. */
  datatype Option<T> = None | Some(value: T)

  /** One scheduled study meeting: the two participants' names and the slot. */
  datatype Session = Session(students: (Name, Name), time: string)

  /**
   A student record. `id` stands for the object's identity: two records with
   the same `id` are the same object. `availability` maps a day to a free
   time range; only its keys matter to the matching functions.
   */
  datatype Student = Student(
    id: nat,
    name: Name,
    grade: Grade,
    interests: set<Interest>,
    availability: map<Day, TimeRange>,
    scheduledSessions: seq<Session>)

  /** Identity comparison, the meaning of `is` (and of the default `==`). */
  predicate SameObject(a: Student, b: Student) {
    a.id == b.id
  }

  /** Same identity implies the same state: one object cannot hold two. */
  predicate Consistent(a: Student, b: Student) {
    SameObject(a, b) ==> a == b
  }
}
