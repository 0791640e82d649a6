/**
 * The invitation bell: the invitations a student has been sent to co-explain
 * a topic, and the answer to one of them. Answering rewrites, inside a
 * transaction, the status of the student's entry in the explanation's
 * contributor list, and then deletes the invitation in a batch.
 *
 * `InvitationInbox` is the part of the store the bell touches: the
 * explanation documents of every classroom, keyed by classroom id and
 * explanation id, and the `invitations` subcollection of the signed-in user.
 */
module InvitationBell {
  import opened Wrappers
  import opened Classrooms

  /** A document of `users/{uid}/invitations`; the sender and the creation time only feed the popover's text. */
  datatype Invitation = Invitation(id: string, classroomId: string, explanationId: string, subject: string)

  /** How an answer ends: the success toast, or one of the two error toasts. */
  datatype Outcome =
    | Answered            // "Invitation Accepted" / "Invitation Declined"
    | ExplanationFailed   // "Could not update the explanation."
    | ResponseFailed      // "Could not process your response."

  function StatusFor(accepted: bool): ContributorStatus {
    if accepted then Accepted else Declined
  }

  /** `contributors.findIndex(c => c.userId === uid)`: the first position holding `uid`, or -1. */
  function FirstContributor(cs: seq<Contributor>, uid: string): (i: int)
    ensures -1 <= i < |cs|
    ensures i >= 0 ==> cs[i].userId == uid
    ensures forall k :: 0 <= k < |cs| && (i == -1 || k < i) ==> cs[k].userId != uid
  {
    if cs == [] then -1
    else if cs[0].userId == uid then 0
    else
      var i := FirstContributor(cs[1..], uid);
      if i == -1 then -1 else i + 1
  }

  /** The first entry of `cs` that belongs to `uid`, at position `k`. */
  ghost predicate IsFirstOf(cs: seq<Contributor>, uid: string, k: int) {
    0 <= k < |cs| && cs[k].userId == uid && forall j :: 0 <= j < k ==> cs[j].userId != uid
  }

  /**
   * The explanation after `uid` answered: the first contributor entry of
   * `uid` takes the answer's status; every other entry and every other field
   * stays as it was.
   */
  function Respond(e: Explanation, uid: string, accepted: bool): (r: Explanation)
    ensures r.(contributors := e.contributors) == e
    ensures |r.contributors| == |e.contributors|
    ensures forall k :: 0 <= k < |e.contributors| ==>
      r.contributors[k] == if IsFirstOf(e.contributors, uid, k)
        then e.contributors[k].(status := StatusFor(accepted))
        else e.contributors[k]
  {
    var i := FirstContributor(e.contributors, uid);
    if i > -1 then
      e.(contributors := e.contributors[i := e.contributors[i].(status := StatusFor(accepted))])
    else e
  }

  /** The invitations without the one whose id is `id`. */
  function WithoutInvitation(invs: seq<Invitation>, id: string): (r: seq<Invitation>)
    ensures forall x :: x in r <==> x in invs && x.id != id
    ensures forall x :: multiset(r)[x] == if x.id != id then multiset(invs)[x] else 0
    ensures |r| <= |invs|
  {
    if invs == [] then []
    else
      assert invs == [invs[0]] + invs[1..];
      if invs[0].id == id then WithoutInvitation(invs[1..], id)
      else [invs[0]] + WithoutInvitation(invs[1..], id)
  }

  /** `invitations?.length || 0`: the badge count, 0 while nothing is loaded. */
  function UnreadCount(invitations: Option<seq<Invitation>>): (n: nat)
    ensures invitations.None? ==> n == 0
    ensures invitations.Some? ==> n == |invitations.value|
  {
    if invitations.Some? then |invitations.value| else 0
  }

  class InvitationInbox {
    /** `classrooms/{classroomId}/explanations/{explanationId}`, keyed by the two ids. */
    var explanations: map<(string, string), Explanation>
    /** `users/{uid}/invitations`, in listing order. */
    var invitations: seq<Invitation>
    /** The signed-in user. */
    const uid: string
    /** Whether the backend accepts an update of an explanation, and the delete of an invitation. */
    const explanationsWritable: bool
    const invitationsWritable: bool

    constructor (uid: string, explanations: map<(string, string), Explanation>, invitations: seq<Invitation>,
                 explanationsWritable: bool, invitationsWritable: bool)
      ensures this.uid == uid && this.explanations == explanations && this.invitations == invitations
      ensures this.explanationsWritable == explanationsWritable && this.invitationsWritable == invitationsWritable
    {
      this.uid := uid;
      this.explanations, this.invitations := explanations, invitations;
      this.explanationsWritable, this.invitationsWritable := explanationsWritable, invitationsWritable;
    }

    /**
     * `handleInvitation(invitation, accepted)`. The transaction reads the
     * explanation (a missing one aborts it), rewrites the status of the
     * user's first contributor entry and writes the list back, or writes
     * nothing when the user is not a contributor. Only after the transaction
     * has succeeded is the invitation deleted.
     */
    method HandleInvitation(invitation: Invitation, accepted: bool) returns (outcome: Outcome)
      modifies this
      ensures var key := (invitation.classroomId, invitation.explanationId);
        && (key !in old(explanations) ==> outcome == ExplanationFailed)
        && (outcome == ExplanationFailed <==>
              key !in old(explanations)
              || (FirstContributor(old(explanations)[key].contributors, uid) >= 0 && !explanationsWritable))
        && (outcome == ExplanationFailed ==> explanations == old(explanations))
        && (outcome != ExplanationFailed ==>
              explanations == old(explanations)[key := Respond(old(explanations)[key], uid, accepted)])
        && (outcome == ResponseFailed <==> outcome != ExplanationFailed && !invitationsWritable)
        && (outcome == Answered ==> invitations == WithoutInvitation(old(invitations), invitation.id))
        && (outcome != Answered ==> invitations == old(invitations))
    {
      var key := (invitation.classroomId, invitation.explanationId);
      // 1. the transaction on the explanation
      if key !in explanations {
        return ExplanationFailed;
      }
      var explanation := explanations[key];
      var contributors := explanation.contributors;
      var i := FirstContributor(contributors, uid);
      if i > -1 {
        if !explanationsWritable {
          return ExplanationFailed;
        }
        contributors := contributors[i := contributors[i].(status := StatusFor(accepted))];
        explanations := explanations[key := explanation.(contributors := contributors)];
      }
      // 2. the batch that deletes the invitation
      if !invitationsWritable {
        return ResponseFailed;
      }
      invitations := WithoutInvitation(invitations, invitation.id);
      outcome := Answered;
    }
  }

  /** Answering again with the same answer changes nothing more. */
  lemma RespondIdempotent(e: Explanation, uid: string, accepted: bool)
    ensures Respond(Respond(e, uid, accepted), uid, accepted) == Respond(e, uid, accepted)
  {
    var once := Respond(e, uid, accepted);
    FirstOfUnchanged(e.contributors, once.contributors, uid);
    var twice := Respond(once, uid, accepted);
    assert twice.contributors == once.contributors;
  }

  /** A later answer replaces an earlier one: only the last answer is kept. */
  lemma LastAnswerWins(e: Explanation, uid: string, first: bool, second: bool)
    ensures Respond(Respond(e, uid, first), uid, second) == Respond(e, uid, second)
  {
    var once := Respond(e, uid, first);
    FirstOfUnchanged(e.contributors, once.contributors, uid);
    var twice := Respond(once, uid, second);
    var direct := Respond(e, uid, second);
    assert twice.contributors == direct.contributors;
  }

  /** Rewriting statuses leaves every entry's user where it was, so the first entry of a user is the same. */
  lemma FirstOfUnchanged(a: seq<Contributor>, b: seq<Contributor>, uid: string)
    requires |a| == |b| && forall k :: 0 <= k < |a| ==> a[k].userId == b[k].userId
    ensures forall k :: IsFirstOf(a, uid, k) <==> IsFirstOf(b, uid, k)
  {
  }

  /** Who the contributors are does not change: an answer only rewrites a status. */
  lemma RespondKeepsContributors(e: Explanation, uid: string, accepted: bool)
    ensures var r := Respond(e, uid, accepted);
      forall k :: 0 <= k < |e.contributors| ==>
        r.contributors[k].userId == e.contributors[k].userId
        && r.contributors[k].userName == e.contributors[k].userName
        && (e.contributors[k].userId != uid ==> r.contributors[k] == e.contributors[k])
  {
  }

  /** Answering as someone who is not a contributor leaves the explanation as it was. */
  lemma RespondAsStranger(e: Explanation, uid: string, accepted: bool)
    requires forall k :: 0 <= k < |e.contributors| ==> e.contributors[k].userId != uid
    ensures Respond(e, uid, accepted) == e
  {
    var r := Respond(e, uid, accepted);
    assert r.contributors == e.contributors;
  }

  /**
   * With distinct invitation ids, answering one invitation lowers the badge
   * count by exactly one and leaves every other invitation in place.
   */
  lemma {:induction false} AnsweringLowersCount(invs: seq<Invitation>, k: nat)
    requires k < |invs|
    requires forall i, j :: 0 <= i < j < |invs| ==> invs[i].id != invs[j].id
    ensures var r := WithoutInvitation(invs, invs[k].id);
      && UnreadCount(Some(r)) == UnreadCount(Some(invs)) - 1
      && forall x :: x in invs && x != invs[k] ==> x in r
  {
    if k > 0 {
      AnsweringLowersCount(invs[1..], k - 1);
      assert invs[0].id != invs[k].id;
    } else {
      NoneWithId(invs[1..], invs[0].id);
    }
  }

  lemma {:induction false} NoneWithId(invs: seq<Invitation>, id: string)
    requires forall i :: 0 <= i < |invs| ==> invs[i].id != id
    ensures WithoutInvitation(invs, id) == invs
  {
    if invs != [] {
      NoneWithId(invs[1..], id);
      assert [invs[0]] + invs[1..] == invs;
    }
  }
}
