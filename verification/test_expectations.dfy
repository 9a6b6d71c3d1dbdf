/** The unit-test scenarios for the message logic, stated against the
    model. Four of them hold. Two expect rules the logic does not
    implement, a minimum content length on create and a refusal to update
    an inactive message; for those the lemmas below show the inputs on
    which the logic answers otherwise, so neither rule is a guarantee. */
module TestExpectations {
  import opened Optional
  import opened Text
  import opened Models
  import opened Repository
  import opened MessageLogic

  /** A valid title that is not yet used yields `Created`. */
  lemma CreateWithFreshTitleIsCreated(s: Store, org: Guid, freshId: Guid)
    requires (org, freshId) !in s
    requires !TitleInUse(s, org, "My Title")
    ensures var request := CreateMessageRequest(Some("My Title"), Some("This is valid content for creation."));
            var r := CreateMessage(s, org, request, freshId);
            r.value.Created? && r.value.value.title == Some("My Title") && r.value.value.isActive
  {
  }

  /** A title already used in the organization yields the conflict text. */
  lemma CreateWithExistingTitleConflicts(s: Store, org: Guid, existingId: Guid, freshId: Guid)
    requires (org, freshId) !in s
    requires (org, existingId) in s && s[(org, existingId)].title == Some("Existing")
    ensures var request := CreateMessageRequest(Some("Existing"), Some("Some valid content here."));
            CreateMessage(s, org, request, freshId).value == Conflict("Message with title 'Existing' already exists.")
  {
    assert !IsWhiteSpace("Existing"[0]);
    assert TitleInUse(s, org, "Existing");
    assert ConflictMessage("Existing") == "Message with title 'Existing' already exists.";
  }

  /** The outcome of a create never depends on the content: two requests
      with the same title meet the same fate, whatever their content. */
  lemma CreateOutcomeIgnoresContent(s: Store, org: Guid, title: NullableString, c1: NullableString, c2: NullableString, freshId: Guid)
    requires (org, freshId) !in s
    ensures var r1 := CreateMessage(s, org, CreateMessageRequest(title, c1), freshId);
            var r2 := CreateMessage(s, org, CreateMessageRequest(title, c2), freshId);
            && r1.value.Created? == r2.value.Created?
            && (!r1.value.Created? ==> r1 == r2)
  {
  }

  /** Hence no minimum content length is enforced: the five-character
      content the tests expect to be rejected is stored. */
  lemma ShortContentIsNotRejected(org: Guid, freshId: Guid)
    ensures var request := CreateMessageRequest(Some("Valid Title"), Some("short"));
            var r := CreateMessage(map[], org, request, freshId);
            r.value.Created? && !r.value.ValidationError?
  {
  }

  /** Updating an id the organization does not hold yields `NotFound`. */
  lemma UpdateOfUnknownIdIsNotFound(s: Store, org: Guid, id: Guid)
    requires (org, id) !in s
    ensures var request := UpdateMessageRequest(Some("New Title"), Some("Updated content that is fine."), true);
            UpdateMessage(s, org, id, request) == Reply(NotFound("Message not found."), s)
  {
  }

  /** An inactive message is updated like any other: the logic never
      answers `ValidationError` to an update. */
  lemma InactiveMessageIsUpdated(s: Store, org: Guid, id: Guid, request: UpdateMessageRequest)
    requires (org, id) in s && !s[(org, id)].isActive
    ensures UpdateMessage(s, org, id, request).value == Updated
  {
  }

  /** The test's own inactive message and request: the answer is `Updated`,
      not the `ValidationError` the test expects. */
  lemma InactiveScenarioIsUpdated(org: Guid, id: Guid)
    ensures var inactive := Message(id, org, Some("Old"), Some("Some content"), false);
            var s: Store := map[(org, id) := inactive];
            var request := UpdateMessageRequest(Some("New Title"), Some("Updated valid text."), false);
            var r := UpdateMessage(s, org, id, request);
            r.value == Updated && !r.value.ValidationError?
  {
  }

  /** Deleting an id the organization does not hold yields `NotFound`. */
  lemma DeleteOfUnknownIdIsNotFound(s: Store, org: Guid, id: Guid)
    requires (org, id) !in s
    ensures DeleteMessage(s, org, id) == Reply(NotFound("Message not found."), s)
  {
  }
}
