# MessageLogic — a Dafny model

This project models the message logic of a tenant-scoped CRUD service for
organizations' messages (`CodeChallenge.Api/Logic/MessageLogic.cs`). For each
operation the logic decides whether a request is well formed, whether it
clashes with stored state, and which outcome to report: `Created`,
`Conflict`, `ValidationError`, `NotFound`, `Updated` or `Deleted`.

Layout:

- `optional.dfy` — `Option`, standing for a C# nullable reference.
- `text.dfy` — `string.IsNullOrWhiteSpace` and `char.IsWhiteSpace`. The .NET
  white-space set is small and fixed, so it is written out in full.
- `models.dfy` — `Message`, the two request bodies, the `Result` outcome type
  and the fixed message texts.
- `repository.dfy` — the storage port's contract. The store is a finite map
  from (organization id, message id) to message. The subset type `Store`
  requires every message to sit under its own ids. Each of the six calls is a
  pure function answering a `Reply(value, store')`.
- `message_logic.dfy` — the five operations, each a pure function from the
  store and the arguments to `Reply(result, store')`.
- `message_logic_properties.dfy` — properties that relate several calls:
  title uniqueness kept by create, operations that undo each other, listings
  after create and delete, and other organizations left alone.
- `test_expectations.dfy` — the unit-test scenarios stated against the model.

Modelling choices:

- Nullable `string` fields are `Option<string>`. The update copies request
  fields without checks, so a stored title or content can be null.
- The Guid a new message receives is a parameter of `CreateMessage`. It is
  required not to be in use for that organization, which is the uniqueness
  `Guid.NewGuid` provides.
- `UpdateMessageAt` gives the lookup and the write their own store states.
  This covers the branch where the message disappears between the two calls
  (lines 71-75). `UpdateMessage` is the case where nothing intervenes.

The code differs from the unit tests in two places, and this model follows the code:

- `CreateMessageAsync` checks only the title. No minimum content length is
  enforced, so the test at `CodeChallenge.Tests/MessageLogicTests.cs:70-85`
  expects a `ValidationError` the code does not give.
  `TestExpectations.ShortContentIsNotRejected` shows that the test's own
  request is `Created`.
- `UpdateMessageAsync` does no validation at all. An inactive message is
  updated like any other, so the test at lines 115-145 expects a
  `ValidationError` the code does not give.
  `TestExpectations.InactiveScenarioIsUpdated` shows that, with the test's
  inactive message stored, the test's request is answered `Updated`.

Neither rule is stated as a guarantee anywhere in the model. Likewise,
update does not keep titles unique within an organization; see
`MessageLogicProperties.UpdateCanBreakTitleUniqueness`.

## Model

| member | source | states |
|---|---|---|
| Text.AllWhiteSpace | CodeChallenge.Api/Logic/MessageLogic.cs:30 | the front-to-back scan is true exactly when every character of the string is white space |
| Text.IsNullOrWhiteSpace | CodeChallenge.Api/Logic/MessageLogic.cs:30 | a title is blank exactly when it is null or all its characters are white space; null and empty are blank, and one non-white character makes it non-blank |
| Models.ConflictMessage | CodeChallenge.Api/Logic/MessageLogic.cs:41 | the conflict text has 37 fixed characters around the title, and the title can be read back from it |
| Repository.GetAllByOrganization | CodeChallenge.Api/Logic/MessageLogic.cs:18 | the listing holds every stored message of the organization and nothing of any other organization |
| Repository.GetById | CodeChallenge.Api/Logic/MessageLogic.cs:23 | the lookup is present exactly when the organization holds that id, and then answers the stored message with those ids |
| Repository.GetByTitle | CodeChallenge.Api/Logic/MessageLogic.cs:38 | the lookup is present exactly when some message of the organization has exactly that title, and then answers such a stored message |
| Repository.Create | CodeChallenge.Api/Logic/MessageLogic.cs:52 | the given message is stored under its ids and answered back; the store gains exactly that key, and existing entries keep their values |
| Repository.Update | CodeChallenge.Api/Logic/MessageLogic.cs:71 | absent, with nothing written, when the message's ids are not stored; otherwise the message replaces the stored one and nothing else changes |
| Repository.Delete | CodeChallenge.Api/Logic/MessageLogic.cs:82 | answers true exactly when the key was stored; afterwards the key is absent and every other entry is unchanged |
| MessageLogic.GetAllMessages | CodeChallenge.Api/Logic/MessageLogic.cs:16-19 | a message is listed for an organization exactly when it belongs to that organization and a lookup of its id answers it |
| MessageLogic.GetMessage | CodeChallenge.Api/Logic/MessageLogic.cs:21-24 | the lookup is present exactly when the organization holds the id, and then answers the stored message itself, which carries those ids |
| MessageLogic.CreateMessage | CodeChallenge.Api/Logic/MessageLogic.cs:26-54 | a blank title gives ValidationError with only "Title" mapped to "Title is required." and leaves the store unchanged. A title used in the organization gives Conflict with the title in its text, store unchanged. Otherwise (and only then) it answers Created with a new active message carrying the organization, title and content; that message is stored under the fresh id and every other entry keeps its value. No other outcome occurs |
| MessageLogic.UpdateMessageAt | CodeChallenge.Api/Logic/MessageLogic.cs:56-78 | a target missing at the lookup, or gone by the write, gives NotFound("Message not found.") with nothing written. Otherwise it answers Updated, the stored message takes the request's title, content and active flag with its ids kept, and nothing else changes. No ValidationError is ever answered |
| MessageLogic.UpdateMessage | CodeChallenge.Api/Logic/MessageLogic.cs:56-78 | NotFound("Message not found.") with the store unchanged exactly when the organization does not hold the id. Otherwise Updated with a full replacement of title, content and active flag and ids kept; other entries are unchanged |
| MessageLogic.DeleteMessage | CodeChallenge.Api/Logic/MessageLogic.cs:80-89 | Deleted exactly when the organization held the id, and then the id is no longer found. Otherwise NotFound("Message not found.") with the store unchanged. Other entries are never changed |
| MessageLogicProperties.CreatePreservesTitleUniqueness | CodeChallenge.Api/Logic/MessageLogic.cs:38-53 | if no two messages of an organization share a title before a create, none do after it |
| MessageLogicProperties.SecondCreateConflicts | CodeChallenge.Api/Logic/MessageLogic.cs:38-42 | after a successful create, a second create with the same title in the same organization answers Conflict with that title, never Created |
| MessageLogicProperties.DeleteUndoesCreate | CodeChallenge.Api/Logic/MessageLogic.cs:80-89 | deleting the message a create just stored answers Deleted and restores the store as it was before the create |
| MessageLogicProperties.DeleteTwiceIsNotFound | CodeChallenge.Api/Logic/MessageLogic.cs:82-85 | a second delete of the same id answers NotFound("Message not found.") and changes nothing |
| MessageLogicProperties.UpdateBackRestores | CodeChallenge.Api/Logic/MessageLogic.cs:67-77 | updating a message and then updating it back to its previous title, content and active flag answers Updated and restores the store |
| MessageLogicProperties.CreateAddsToListing | CodeChallenge.Api/Logic/MessageLogic.cs:44-53 | after a successful create the organization's listing is the previous listing plus the created message |
| MessageLogicProperties.DeleteRemovesFromListing | CodeChallenge.Api/Logic/MessageLogic.cs:80-89 | after a delete the organization's listing is the previous listing without the message of that id |
| MessageLogicProperties.OtherOrganizationsUntouched | CodeChallenge.Api/Logic/MessageLogic.cs:26-89 | create, update and delete in one organization leave every lookup in every other organization unchanged |
| MessageLogicProperties.UpdateCanBreakTitleUniqueness | CodeChallenge.Api/Logic/MessageLogic.cs:67-77 | in any store, renaming a message to the non-null title of another message of its organization answers Updated and leaves two messages sharing that title: update does not keep uniqueness |
| TestExpectations.CreateWithFreshTitleIsCreated | CodeChallenge.Tests/MessageLogicTests.cs:24-46 | the test's request with an unused title answers Created with that title and active set |
| TestExpectations.CreateWithExistingTitleConflicts | CodeChallenge.Tests/MessageLogicTests.cs:49-67 | the test's request whose title is already used answers Conflict("Message with title 'Existing' already exists.") |
| TestExpectations.CreateOutcomeIgnoresContent | CodeChallenge.Api/Logic/MessageLogic.cs:30-53 | two creates that differ only in content have the same outcome kind, and the same failure when they fail, so no content rule is enforced |
| TestExpectations.ShortContentIsNotRejected | CodeChallenge.Tests/MessageLogicTests.cs:70-85 | the test's five-character content is stored (Created), contrary to the ValidationError the test expects |
| TestExpectations.UpdateOfUnknownIdIsNotFound | CodeChallenge.Tests/MessageLogicTests.cs:91-112 | the test's update of an unknown id answers NotFound("Message not found.") with the store unchanged |
| TestExpectations.InactiveMessageIsUpdated | CodeChallenge.Api/Logic/MessageLogic.cs:61-77 | any update of a stored inactive message answers Updated, so no "inactive cannot be updated" rule is enforced |
| TestExpectations.InactiveScenarioIsUpdated | CodeChallenge.Tests/MessageLogicTests.cs:115-145 | with the test's inactive message stored, the test's request is answered Updated, not the ValidationError the test expects |
| TestExpectations.DeleteOfUnknownIdIsNotFound | CodeChallenge.Tests/MessageLogicTests.cs:150-164 | the test's delete of an unknown id answers NotFound("Message not found.") with the store unchanged |

## Left out

- The repository implementation (`InMemoryMessageRepository`, `IMessageRepository`) is not part of this model. Only the contract the logic relies on is modelled.
- `CodeChallenge.Api/Models` is not part of this model. The fields of `Message` and the request bodies are those the logic reads or writes. Any data-annotation validation the web framework applies before the logic runs is not modelled.
- The controller's mapping of outcomes to HTTP status codes (`MessagesController.cs`) is transport plumbing. Any outcome an endpoint does not match falls to status 500.
- `Program.cs` only registers services and middleware, with no logic.
- async/await and concurrency: every operation is one sequential step. The only interleaving modelled is a message deleted between the update's lookup and its write. A concurrent create of the same title between the title lookup and the write is not modelled.
- Object aliasing: the update mutates the message object it fetched (lines 67-69). With an in-memory repository that hands out its own objects, this changes the stored message before `UpdateAsync` is called. The model treats messages as values.
- Guid generation is a parameter; `Guid` is an unbounded natural number, since only equality matters.
- MessageLogic.GetAllMessages: answers a set, not an `IEnumerable` sequence, because the repository promises no order.
- Repository.GetByTitle: when several messages of an organization share the title, the model answers the one with the least id. The real choice is unspecified, and the logic only tests for presence.
