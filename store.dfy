/** The three tables the commands work on (User, Quiz, Score) as in-memory
    rows keyed by id, and the two lookups the commands ask the database for:
    the quiz ids a `play` round may still draw, and the first user with a
    given name. Queries without an ORDER BY are read in ascending id order. */
module Store {

  type Id = int

  datatype User = User(name: string, age: nat)

  datatype Quiz = Quiz(question: string, answer: string, authorId: Id)

  datatype Score = Score(wins: nat, userId: Id)

  datatype Option<T> = None | Some(value: T)

  /** The exceptions the commands raise. */
  datatype Error =
    | UserNotFound(name: string)   // "User ('<name>') doesn't exist!"
    | EmptyResponse                // "Response can't be empty!"
    | QuizNotFound(id: Id)         // "Quiz '<id>' is not in DB"
    | NothingDeleted(id: Id)       // "<id> not in DB"
    | NullQuiz(id: Id)             // TypeError: `update` reads a field of the missing quiz

  datatype Result<T> = Ok(value: T) | Err(error: Error)

  predicate Increasing(s: seq<Id>) {
    forall i, j :: 0 <= i < j < |s| ==> s[i] < s[j]
  }

  predicate Distinct(s: seq<Id>) {
    forall i, j :: 0 <= i < j < |s| ==> s[i] != s[j]
  }

  /** The rows of `Quiz.findAll({where: {id: {[Op.notIn]: asked}}})` among the
      ids in [lo, hi), in ascending id order. */
  function Unasked(quizzes: map<Id, Quiz>, asked: seq<Id>, lo: Id, hi: Id): (rows: seq<Id>)
    decreases hi - lo
    ensures forall i :: 0 <= i < |rows| ==> lo <= rows[i] < hi && rows[i] in quizzes && rows[i] !in asked
  {
    if lo >= hi then []
    else if lo in quizzes && lo !in asked then [lo] + Unasked(quizzes, asked, lo + 1, hi)
    else Unasked(quizzes, asked, lo + 1, hi)
  }

  /** The query misses no quiz: every id in [lo, hi) that has a quiz and was
      not asked is among the rows. */
  lemma {:induction false} UnaskedComplete(quizzes: map<Id, Quiz>, asked: seq<Id>, lo: Id, hi: Id, id: Id)
    ensures lo <= id < hi && id in quizzes && id !in asked ==> id in Unasked(quizzes, asked, lo, hi)
    decreases hi - lo
  {
    if lo < hi && id != lo {
      UnaskedComplete(quizzes, asked, lo + 1, hi, id);
    }
  }

  /** The rows come in ascending id order. */
  lemma {:induction false} UnaskedIncreasing(quizzes: map<Id, Quiz>, asked: seq<Id>, lo: Id, hi: Id)
    ensures Increasing(Unasked(quizzes, asked, lo, hi))
    decreases hi - lo
  {
    if lo < hi {
      UnaskedIncreasing(quizzes, asked, lo + 1, hi);
    }
  }

  /** A list without repeats has as many elements as its set of ids. */
  lemma {:induction false} DistinctCard(s: seq<Id>)
    requires Distinct(s)
    ensures |set x | x in s| == |s|
  {
    if s != [] {
      var rest := s[..|s| - 1];
      assert Distinct(rest) by {
        forall i, j | 0 <= i < j < |rest| ensures rest[i] != rest[j] {
          assert rest[i] == s[i] && rest[j] == s[j];
        }
      }
      DistinctCard(rest);
      var last := s[|s| - 1];
      assert s == rest + [last];
      assert last !in rest by {
        forall i | 0 <= i < |rest| ensures rest[i] != last {
          assert rest[i] == s[i];
        }
      }
      assert (set x | x in s) == (set x | x in rest) + {last};
    }
  }

  /** `Quiz.count({where})`: when every quiz id lies below `hi`, the query
      has one row per quiz not yet asked. */
  lemma UnaskedCount(quizzes: map<Id, Quiz>, asked: seq<Id>, hi: Id)
    requires forall id :: id in quizzes ==> 0 <= id < hi
    ensures |Unasked(quizzes, asked, 0, hi)| == |set id | id in quizzes && id !in asked|
  {
    var rows := Unasked(quizzes, asked, 0, hi);
    UnaskedIncreasing(quizzes, asked, 0, hi);
    forall id | id in quizzes && id !in asked ensures id in rows {
      UnaskedComplete(quizzes, asked, 0, hi, id);
    }
    assert (set x | x in rows) == (set id | id in quizzes && id !in asked);
    DistinctCard(rows);
  }

  /** `User.findOne({where: {name}})` among the ids in [lo, hi): the first
      user, by id, with that name. */
  function FirstNamed(users: map<Id, User>, name: string, lo: Id, hi: Id): (r: Option<Id>)
    decreases hi - lo
    ensures r.Some? ==> lo <= r.value < hi && r.value in users && users[r.value].name == name
    ensures r.Some? ==> forall id :: lo <= id < r.value && id in users ==> users[id].name != name
    ensures r.None? ==> forall id :: lo <= id < hi && id in users ==> users[id].name != name
  {
    if lo >= hi then None
    else if lo in users && users[lo].name == name then Some(lo)
    else FirstNamed(users, name, lo + 1, hi)
  }

  /** Appending an id not yet in a list without repeats keeps it without
      repeats. */
  lemma DistinctAppend(s: seq<Id>, x: Id)
    requires Distinct(s) && x !in s
    ensures Distinct(s + [x])
  {
    var t := s + [x];
    forall i, j | 0 <= i < j < |t| ensures t[i] != t[j] {
      assert t[i] == s[i];
    }
  }

  /** A list of ids without repeats, all drawn from `keys`, is no longer than
      `keys` has elements. */
  lemma {:induction false} DistinctBound(s: seq<Id>, keys: set<Id>)
    requires Distinct(s)
    requires forall i :: 0 <= i < |s| ==> s[i] in keys
    ensures |s| <= |keys|
  {
    if s != [] {
      var last := s[|s| - 1];
      var rest := s[..|s| - 1];
      assert forall i :: 0 <= i < |rest| ==> rest[i] in keys - {last} by {
        forall i | 0 <= i < |rest| ensures rest[i] in keys - {last} {
          assert rest[i] == s[i] != s[|s| - 1];
        }
      }
      DistinctBound(rest, keys - {last});
    }
  }
}
