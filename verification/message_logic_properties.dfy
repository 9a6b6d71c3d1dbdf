/** Properties that relate several calls of the message logic: the
    uniqueness a create keeps, the operations that undo each other, and
    the organizations an operation leaves alone. */
module MessageLogicProperties {
  import opened Optional
  import opened Text
  import opened Models
  import opened Repository
  import opened MessageLogic

  /** A create never makes two messages of one organization share a title. */
  lemma CreatePreservesTitleUniqueness(s: Store, org: Guid, request: CreateMessageRequest, freshId: Guid)
    requires (org, freshId) !in s
    requires TitlesUnique(s)
    ensures TitlesUnique(CreateMessage(s, org, request, freshId).store)
  {
  }

  /** Two creates with the same title in one organization: whatever the
      first answered, the second cannot answer `Created` when the first did. */
  lemma SecondCreateConflicts(s: Store, org: Guid, first: CreateMessageRequest, second: CreateMessageRequest, id1: Guid, id2: Guid)
    requires (org, id1) !in s
    requires second.title == first.title
    requires CreateMessage(s, org, first, id1).value.Created?
    requires (org, id2) !in CreateMessage(s, org, first, id1).store
    ensures CreateMessage(CreateMessage(s, org, first, id1).store, org, second, id2).value
            == Conflict(ConflictMessage(first.title.value))
  {
  }

  /** Deleting the message a create has just stored answers `Deleted` and
      gives back the store as it was before the create. */
  lemma DeleteUndoesCreate(s: Store, org: Guid, request: CreateMessageRequest, freshId: Guid)
    requires (org, freshId) !in s
    requires CreateMessage(s, org, request, freshId).value.Created?
    ensures DeleteMessage(CreateMessage(s, org, request, freshId).store, org, freshId) == Reply(Deleted, s)
  {
  }

  /** A second delete of the same message finds nothing and changes nothing. */
  lemma DeleteTwiceIsNotFound(s: Store, org: Guid, id: Guid)
    ensures var s' := DeleteMessage(s, org, id).store;
            DeleteMessage(s', org, id) == Reply(NotFound(NotFoundMessage), s')
  {
  }

  /** Updating a message back to the title, content and active flag it had
      restores the store. */
  lemma UpdateBackRestores(s: Store, org: Guid, id: Guid, request: UpdateMessageRequest)
    requires (org, id) in s
    ensures var before := s[(org, id)];
            var undo := UpdateMessageRequest(before.title, before.content, before.isActive);
            UpdateMessage(UpdateMessage(s, org, id, request).store, org, id, undo) == Reply(Updated, s)
  {
  }

  /** After a successful create the organization's listing is the old
      listing plus the new message. */
  lemma CreateAddsToListing(s: Store, org: Guid, request: CreateMessageRequest, freshId: Guid)
    requires (org, freshId) !in s
    requires CreateMessage(s, org, request, freshId).value.Created?
    ensures var r := CreateMessage(s, org, request, freshId);
            GetAllMessages(r.store, org) == GetAllMessages(s, org) + {r.value.value}
  {
  }

  /** After a delete the organization's listing holds no message with the
      deleted id and keeps every other one. */
  lemma DeleteRemovesFromListing(s: Store, org: Guid, id: Guid)
    ensures var after := GetAllMessages(DeleteMessage(s, org, id).store, org);
            forall m :: m in after <==> m in GetAllMessages(s, org) && m.id != id
  {
  }

  /** No operation changes what another organization sees. */
  lemma OtherOrganizationsUntouched(s: Store, org: Guid, other: Guid, id: Guid,
                                    create: CreateMessageRequest, update: UpdateMessageRequest, freshId: Guid)
    requires other != org
    requires (org, freshId) !in s
    ensures SameOrganization(CreateMessage(s, org, create, freshId).store, s, other)
    ensures SameOrganization(UpdateMessage(s, org, id, update).store, s, other)
    ensures SameOrganization(DeleteMessage(s, org, id).store, s, other)
  {
  }

  /** Update does not keep titles unique: in any store, renaming one
      message to the (non-null) title of another message of its
      organization is answered `Updated` and leaves the two sharing it. */
  lemma UpdateCanBreakTitleUniqueness(s: Store, org: Guid, id1: Guid, id2: Guid, request: UpdateMessageRequest)
    requires (org, id1) in s && (org, id2) in s && id1 != id2
    requires s[(org, id1)].title.Some? && request.title == s[(org, id1)].title
    ensures var r := UpdateMessage(s, org, id2, request);
            r.value == Updated && !TitlesUnique(r.store)
  {
  }
}
