/** The quiz commands `create`, `test`, `play`, `update` and `delete`, as
    operations on a database object that holds the three tables. A command's
    prompts become parameters: the user name, question, answer or quiz id it
    would read, and for `play` an oracle for `Math.random()` and one for the
    player's replies. */
module Quizzes {
  import opened Answers
  import opened Store

  /** The oracle standing for `Math.floor(Math.random() * count)` in round
      `round`: an offset into `count` rows. */
  ghost predicate IsRandom(random: (nat, nat) -> nat) {
    forall round, count :: 0 < count ==> random(round, count) < count
  }

  /** The quiz round `round` of `play` asks: the row at the random offset
      among the quizzes not asked yet. */
  function Pick(quizzes: map<Id, Quiz>, asked: seq<Id>, hi: Id, random: (nat, nat) -> nat, round: nat): (id: Id)
    requires IsRandom(random) && Unasked(quizzes, asked, 0, hi) != []
    ensures id in quizzes && id !in asked && 0 <= id < hi
  {
    var rows := Unasked(quizzes, asked, 0, hi);
    rows[random(round, |rows|)]
  }

  /** Every round of `resolved` asked the quiz `Pick` chose for it among
      those the rounds before it had not asked. */
  ghost predicate Drawn(quizzes: map<Id, Quiz>, hi: Id, random: (nat, nat) -> nat, resolved: seq<Id>)
    requires IsRandom(random)
    decreases |resolved|
  {
    resolved == [] ||
    var before := resolved[..|resolved| - 1];
    && Drawn(quizzes, hi, random, before)
    && Unasked(quizzes, before, 0, hi) != []
    && resolved[|resolved| - 1] == Pick(quizzes, before, hi, random, |before|)
  }

  /** The first n replies were right. */
  ghost predicate RightReplies(quizzes: map<Id, Quiz>, reply: nat -> string, resolved: seq<Id>, n: nat)
    requires n <= |resolved|
  {
    forall i :: 0 <= i < n ==> resolved[i] in quizzes && Matches(reply(i), quizzes[resolved[i]].answer)
  }

  /** A right reply to the next quiz extends a run of right replies. */
  lemma RightRepliesExtend(quizzes: map<Id, Quiz>, reply: nat -> string, resolved: seq<Id>, id: Id)
    requires RightReplies(quizzes, reply, resolved, |resolved|)
    requires id in quizzes && Matches(reply(|resolved|), quizzes[id].answer)
    ensures RightReplies(quizzes, reply, resolved + [id], |resolved| + 1)
  {
    var next := resolved + [id];
    forall i | 0 <= i < |next|
      ensures next[i] in quizzes && Matches(reply(i), quizzes[next[i]].answer)
    {
      if i < |resolved| {
        assert next[i] == resolved[i];
        assert resolved[i] in quizzes && Matches(reply(i), quizzes[resolved[i]].answer);
      } else {
        assert next[i] == id;
      }
    }
  }

  /** What a `play` session that ended with `resolved` asked and `score`
      answered right looks like: every round drew its quiz among those not yet
      asked; every reply before the last was right; the session stopped
      because no quiz was left (and then every reply was right) or because the
      last reply was wrong. */
  ghost predicate IsSession(quizzes: map<Id, Quiz>, hi: Id, random: (nat, nat) -> nat, reply: nat -> string,
                            resolved: seq<Id>, score: nat)
    requires IsRandom(random)
  {
    && score <= |resolved| <= score + 1
    && Drawn(quizzes, hi, random, resolved)
    && RightReplies(quizzes, reply, resolved, score)
    && (score == |resolved| ==> Unasked(quizzes, resolved, 0, hi) == [])
    && (score < |resolved| ==>
          resolved[score] in quizzes && !Matches(reply(score), quizzes[resolved[score]].answer))
  }

  /** A round that asks the quiz `Pick` chooses extends a run of draws. */
  lemma DrawnExtend(quizzes: map<Id, Quiz>, hi: Id, random: (nat, nat) -> nat, resolved: seq<Id>, id: Id)
    requires IsRandom(random)
    requires Drawn(quizzes, hi, random, resolved)
    requires Unasked(quizzes, resolved, 0, hi) != []
    requires id == Pick(quizzes, resolved, hi, random, |resolved|)
    ensures Drawn(quizzes, hi, random, resolved + [id])
  {
    assert (resolved + [id])[..|resolved|] == resolved;
  }

  /** A run of draws never asks a quiz twice and asks only existing quizzes,
      so it asks at most as many quizzes as there are. */
  lemma {:induction false} DrawnFacts(quizzes: map<Id, Quiz>, hi: Id, random: (nat, nat) -> nat, resolved: seq<Id>)
    requires IsRandom(random)
    requires Drawn(quizzes, hi, random, resolved)
    ensures Distinct(resolved)
    ensures forall i :: 0 <= i < |resolved| ==> resolved[i] in quizzes
    ensures |resolved| <= |quizzes|
  {
    if resolved != [] {
      var before := resolved[..|resolved| - 1];
      DrawnFacts(quizzes, hi, random, before);
      var last := resolved[|resolved| - 1];
      assert resolved == before + [last];
      DistinctAppend(before, last);
      DistinctBound(resolved, quizzes.Keys);
    }
  }

  /** A session's score is the number of quizzes it asked, less one when it
      ended on a wrong reply, so it never exceeds the number of quizzes; and
      when every reply was right, every quiz was asked. */
  lemma SessionFacts(quizzes: map<Id, Quiz>, hi: Id, random: (nat, nat) -> nat, reply: nat -> string,
                     resolved: seq<Id>, score: nat)
    requires IsRandom(random)
    requires forall id :: id in quizzes ==> 0 <= id < hi
    requires IsSession(quizzes, hi, random, reply, resolved, score)
    ensures Distinct(resolved)
    ensures score <= |resolved| <= |quizzes|
    ensures score == |resolved| ==> forall id :: id in quizzes ==> id in resolved
  {
    DrawnFacts(quizzes, hi, random, resolved);
    forall id | id in quizzes
      ensures score == |resolved| ==> id in resolved
    {
      UnaskedComplete(quizzes, resolved, 0, hi, id);
    }
  }

  /** Every prefix of a run of draws is a run of draws. */
  lemma {:induction false} DrawnPrefix(quizzes: map<Id, Quiz>, hi: Id, random: (nat, nat) -> nat,
                                       resolved: seq<Id>, n: nat)
    requires IsRandom(random)
    requires Drawn(quizzes, hi, random, resolved) && n <= |resolved|
    ensures Drawn(quizzes, hi, random, resolved[..n])
    decreases |resolved|
  {
    if n < |resolved| {
      var before := resolved[..|resolved| - 1];
      DrawnPrefix(quizzes, hi, random, before, n);
      assert before[..n] == resolved[..n];
    } else {
      assert resolved[..n] == resolved;
    }
  }

  /** Round n of a run of draws asked the quiz `Pick` chose after the
      rounds before it. */
  lemma DrawnNext(quizzes: map<Id, Quiz>, hi: Id, random: (nat, nat) -> nat, resolved: seq<Id>, n: nat)
    requires IsRandom(random)
    requires Drawn(quizzes, hi, random, resolved) && n < |resolved|
    ensures Unasked(quizzes, resolved[..n], 0, hi) != []
    ensures resolved[n] == Pick(quizzes, resolved[..n], hi, random, n)
  {
    DrawnPrefix(quizzes, hi, random, resolved, n + 1);
    assert resolved[..n + 1][..n] == resolved[..n];
  }

  /** With the same oracle, a shorter run of draws is a prefix of a longer
      one. */
  lemma {:induction false} DrawnAgree(quizzes: map<Id, Quiz>, hi: Id, random: (nat, nat) -> nat,
                                      r1: seq<Id>, r2: seq<Id>)
    requires IsRandom(random)
    requires Drawn(quizzes, hi, random, r1) && Drawn(quizzes, hi, random, r2)
    requires |r1| <= |r2|
    ensures r1 == r2[..|r1|]
    decreases |r1|
  {
    if r1 != [] {
      var n := |r1|;
      DrawnPrefix(quizzes, hi, random, r2, n);
      var p2 := r2[..n];
      var b1, b2 := r1[..n - 1], p2[..n - 1];
      assert Drawn(quizzes, hi, random, b1) && Drawn(quizzes, hi, random, b2);
      DrawnAgree(quizzes, hi, random, b1, b2);
      assert b1 == b2;
      assert r1[n - 1] == Pick(quizzes, b1, hi, random, n - 1);
      assert p2[n - 1] == Pick(quizzes, b2, hi, random, n - 1);
      assert r1 == b1 + [r1[n - 1]];
      assert p2 == b2 + [p2[n - 1]];
    }
  }

  /** Of two sessions with the same oracles, neither can stop before the
      other. */
  lemma SessionNotShorter(quizzes: map<Id, Quiz>, hi: Id, random: (nat, nat) -> nat, reply: nat -> string,
                          r1: seq<Id>, s1: nat, r2: seq<Id>, s2: nat)
    requires IsRandom(random)
    requires IsSession(quizzes, hi, random, reply, r1, s1)
    requires IsSession(quizzes, hi, random, reply, r2, s2)
    ensures |r2| <= |r1|
  {
    if |r1| < |r2| {
      DrawnAgree(quizzes, hi, random, r1, r2);
      DrawnNext(quizzes, hi, random, r2, |r1|);
    }
  }

  /** Given the two oracles, a session's outcome is determined:
      `IsSession` describes one run of the loop and no other. */
  lemma SessionIsDeterministic(quizzes: map<Id, Quiz>, hi: Id, random: (nat, nat) -> nat, reply: nat -> string,
                               r1: seq<Id>, s1: nat, r2: seq<Id>, s2: nat)
    requires IsRandom(random)
    requires IsSession(quizzes, hi, random, reply, r1, s1)
    requires IsSession(quizzes, hi, random, reply, r2, s2)
    ensures r1 == r2 && s1 == s2
  {
    SessionNotShorter(quizzes, hi, random, reply, r1, s1, r2, s2);
    SessionNotShorter(quizzes, hi, random, reply, r2, s2, r1, s1);
    DrawnAgree(quizzes, hi, random, r1, r2);
    assert r2 == r2[..|r2|];
  }

  /** The question-and-answer loop of `play` over the quiz table `quizzes`,
      whose ids lie below `hi`: each round draws one of the quizzes not asked
      yet, and the loop ends when none is left or on the first wrong reply. */
  method RunSession(quizzes: map<Id, Quiz>, hi: Id, random: (nat, nat) -> nat, reply: nat -> string)
    returns (score: nat, resolved: seq<Id>)
    requires forall id :: id in quizzes ==> 0 <= id < hi
    requires IsRandom(random)
    ensures IsSession(quizzes, hi, random, reply, resolved, score)
    ensures Distinct(resolved) && score <= |quizzes|
    ensures score == |resolved| ==> forall id :: id in quizzes ==> id in resolved
  {
    score, resolved := 0, [];
    while true
      invariant score == |resolved|
      invariant Drawn(quizzes, hi, random, resolved)
      invariant RightReplies(quizzes, reply, resolved, score)
      decreases |quizzes| - |resolved|
    {
      DrawnFacts(quizzes, hi, random, resolved);
      var rows := Unasked(quizzes, resolved, 0, hi);
      var count := |rows|;
      if count == 0 {
        break;
      }
      var quiz := rows[random(|resolved|, count)];
      DrawnExtend(quizzes, hi, random, resolved, quiz);
      var answer := reply(|resolved|);
      if !Matches(answer, quizzes[quiz].answer) {
        resolved := resolved + [quiz];
        break;
      }
      RightRepliesExtend(quizzes, reply, resolved, quiz);
      resolved := resolved + [quiz];
      score := score + 1;
    }
    SessionFacts(quizzes, hi, random, reply, resolved, score);
  }

  /** The database: the User, Quiz and Score tables, and the next id each
      auto-increment column hands out. */
  class Db {
    var users: map<Id, User>
    var quizzes: map<Id, Quiz>
    var scores: seq<Score>
    var nextUserId: nat
    var nextQuizId: nat

    /** Ids lie below the next id to be handed out; every quiz has an
        existing author and every score an existing player. */
    ghost predicate Valid()
      reads this
    {
      && (forall id :: id in users ==> 0 <= id < nextUserId)
      && (forall id :: id in quizzes ==> 0 <= id < nextQuizId && quizzes[id].authorId in users)
      && (forall i :: 0 <= i < |scores| ==> scores[i].userId in users)
    }

    /** A database holding the users `seed`, whose ids lie below `bound`, and
        no quizzes or scores. */
    constructor (seed: map<Id, User>, bound: nat)
      requires forall id :: id in seed ==> 0 <= id < bound
      ensures Valid()
      ensures users == seed && quizzes == map[] && scores == []
    {
      users, quizzes, scores := seed, map[], [];
      nextUserId, nextQuizId := bound, 1;
    }

    /** `User.findOne({where: {name}})`: the first user with that name, if any. */
    function FindUser(name: string): (r: Option<Id>)
      reads this
      requires Valid()
      ensures r.Some? ==> r.value in users && users[r.value].name == name
      ensures r.Some? ==> forall id :: id in users && id < r.value ==> users[id].name != name
      ensures r.None? <==> forall id :: id in users ==> users[id].name != name
    {
      FirstNamed(users, name, 0, nextUserId)
    }

    /** `create`: the user must exist, then the question and then the answer
        must be non-empty; a new quiz by that user is then added and no other
        quiz changes. */
    method Create(name: string, question: string, answer: string) returns (r: Result<Id>)
      requires Valid()
      modifies this`quizzes, this`nextQuizId
      ensures Valid()
      ensures FindUser(name).None? ==> r == Err(UserNotFound(name))
      ensures FindUser(name).Some? && (question == [] || answer == []) ==> r == Err(EmptyResponse)
      ensures r.Err? ==> quizzes == old(quizzes)
      ensures FindUser(name).Some? && question != [] && answer != [] ==>
                && r.Ok? && r.value !in old(quizzes)
                && quizzes == old(quizzes)[r.value := Quiz(question, answer, FindUser(name).value)]
    {
      var author := FindUser(name);
      if author.None? {
        return Err(UserNotFound(name));
      }
      if question == [] {
        return Err(EmptyResponse);
      }
      if answer == [] {
        return Err(EmptyResponse);
      }
      var id := nextQuizId;
      quizzes := quizzes[id := Quiz(question, answer, author.value)];
      nextQuizId := nextQuizId + 1;
      r := Ok(id);
    }

    /** `test`: an unknown id fails; otherwise the reply is judged against the
        stored answer. Nothing changes. */
    method Test(id: Id, reply: string) returns (r: Result<bool>)
      ensures r.Err? <==> id !in quizzes
      ensures r.Err? ==> r.error == QuizNotFound(id)
      ensures r.Ok? ==> (r.value <==> Matches(reply, quizzes[id].answer))
    {
      if id !in quizzes {
        return Err(QuizNotFound(id));
      }
      var quiz := quizzes[id];
      r := Ok(Matches(reply, quiz.answer));
    }

    /** `User.findOrCreate({where: {name}, defaults: {age: 0}})`. */
    method FindOrCreateUser(name: string) returns (id: Id)
      requires Valid()
      modifies this`users, this`nextUserId
      ensures Valid()
      ensures id in users && users[id].name == name
      ensures old(FindUser(name)).Some? ==>
                id == old(FindUser(name)).value && users == old(users) && nextUserId == old(nextUserId)
      ensures old(FindUser(name)).None? ==>
                id == old(nextUserId) && id !in old(users) && users == old(users)[id := User(name, 0)]
    {
      var found := FindUser(name);
      if found.Some? {
        return found.value;
      }
      id := nextUserId;
      users := users[id := User(name, 0)];
      nextUserId := nextUserId + 1;
    }

    /** `play`: one session, then the player named `name` is found or created
        and exactly one score row with the session's score is added for them.
        The quiz table does not change. */
    method Play(random: (nat, nat) -> nat, reply: nat -> string, name: string)
      returns (score: nat, resolved: seq<Id>, player: Id)
      requires Valid()
      requires IsRandom(random)
      modifies this`users, this`nextUserId, this`scores
      ensures Valid()
      ensures IsSession(old(quizzes), old(nextQuizId), random, reply, resolved, score)
      ensures player in users && users[player].name == name
      ensures old(FindUser(name)).Some? ==> player == old(FindUser(name)).value && users == old(users)
      ensures old(FindUser(name)).None? ==>
                player !in old(users) && users == old(users)[player := User(name, 0)]
      ensures scores == old(scores) + [Score(score, player)]
    {
      score, resolved := RunSession(quizzes, nextQuizId, random, reply);
      player := FindOrCreateUser(name);
      scores := scores + [Score(score, player)];
    }

    /** `update`: an unknown id fails before the question prompt, when the
        command reads the question of the missing row; then an empty question or
        answer fails; otherwise quiz `id` gets the new question and answer,
        keeps its author, and no other quiz changes. */
    method Update(id: Id, question: string, answer: string) returns (r: Result<()>)
      requires Valid()
      modifies this`quizzes
      ensures Valid()
      ensures id !in quizzes ==> r == Err(NullQuiz(id))
      ensures id in quizzes ==> (r.Err? <==> question == [] || answer == [])
      ensures id in quizzes && r.Err? ==> r.error == EmptyResponse
      ensures r.Err? ==> quizzes == old(quizzes)
      ensures r.Ok? ==>
                && id in old(quizzes)
                && quizzes == old(quizzes)[id := Quiz(question, answer, old(quizzes)[id].authorId)]
    {
      if id !in quizzes {
        return Err(NullQuiz(id));
      }
      var quiz := quizzes[id];
      if question == [] {
        return Err(EmptyResponse);
      }
      if answer == [] {
        return Err(EmptyResponse);
      }
      quiz := quiz.(question := question, answer := answer);
      quizzes := quizzes[id := quiz];
      r := Ok(());
    }

    /** `Quiz.destroy({where: {id}})`: removes the row with that id, if any,
        and returns how many rows it removed. */
    method Destroy(id: Id) returns (n: nat)
      modifies this`quizzes
      ensures n == if id in old(quizzes) then 1 else 0
      ensures quizzes == old(quizzes) - {id}
    {
      n := if id in quizzes then 1 else 0;
      quizzes := quizzes - {id};
    }

    /** `delete`: fails when no row was removed, that is when no quiz has the
        id; otherwise exactly that quiz is gone and the others are untouched. */
    method Delete(id: Id) returns (r: Result<()>)
      requires Valid()
      modifies this`quizzes
      ensures Valid()
      ensures r.Err? <==> id !in old(quizzes)
      ensures r.Err? ==> r.error == NothingDeleted(id)
      ensures quizzes == old(quizzes) - {id}
    {
      var n := Destroy(id);
      if n == 0 {
        return Err(NothingDeleted(id));
      }
      r := Ok(());
    }
  }

  /** A caller of the commands, reasoning from their contracts alone. */
  method CreateTestDeleteScenario() {
    var db := new Db(map[1 := User("ana", 20)], 2);
    var missing := db.Create("bob", "Capital of France?", "paris");
    assert missing == Err(UserNotFound("bob"));
    var created := db.Create("ana", "Capital of France?", "paris");
    assert db.users[1].name == "ana";
    assert created.Ok?;
    var id := created.value;
    RightReplyExample();
    var verdict := db.Test(id, " Paris ");
    assert verdict == Ok(true);
    WrongReplyExample();
    verdict := db.Test(id, "Pari s");
    assert verdict == Ok(false);
    var emptied := db.Update(id, "", "Paris");
    assert emptied == Err(EmptyResponse);
    var updated := db.Update(id, "Capital of Italy?", "rome");
    assert updated.Ok? && db.quizzes[id].answer == "rome";
    var deleted := db.Delete(id);
    assert deleted.Ok?;
    var again := db.Delete(id);
    assert again == Err(NothingDeleted(id));
    verdict := db.Test(id, "paris");
    assert verdict == Err(QuizNotFound(id));
  }
}
