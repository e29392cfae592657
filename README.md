# stalwart-tlsa-updater: the TLSA reconciliation, modelled in Dafny

stalwart-tlsa-updater keeps the TLSA records of a mail domain at a DNS
provider (Cloudflare's API shape) in step with the records the Stalwart mail
server reports. When the service gets an event (`POST /`), it does the
following:

- It fetches the mail server's DNS records and looks up the provider zone.
- It runs an addition phase, one hostname of `STALWART_HOSTNAMES` after the
  other. For each hostname it lists the TLSA records under
  `_25._tcp.<hostname>`. Then it creates every authoritative TLSA content
  that is not listed there.
- It runs a deletion phase, again one hostname after the other. For each
  hostname it lists again. Then it deletes every listed record whose content
  is not among the authoritative contents, or whose name is not the
  canonical one.
- It answers with the fetched records and the records it added and deleted.

The project models this core as follows:

- `types.dfy` (module `Types`) holds the record types that are exchanged,
  reduced to the fields the updater reads.
- `text.dfy` (module `Text`) holds the JavaScript string operations the
  updater depends on: `trim()`, `split(/\s+/)` and `split(',')`.
- `reconciler.dfy` (module `Reconciler`) holds the pure decisions:
  - which records an addition phase adds;
  - which listed records a deletion phase deletes;
  - the create request body;
  - the report entries.
- `provider.dfy` (module `Provider`) models the provider zone as a class.
  Its fields are the zone's records and the log of calls made against it.
  Its methods are list, create and delete.
- `service.dfy` (module `Service`) holds the loops of `AppService`, written
  as imperative methods over that zone. Each method is proved equal to a pure
  description of its effect: `Step` for one hostname, `Run` for all
  hostnames. The effect covers the new zone, the calls made and the report.
- `phases.dfy` (module `Phases`) proves what the phases achieve:
  - the addition phase only appends, and it leaves every authoritative TLSA
    content published under every canonical name;
  - the deletion phase removes exactly the unwanted TLSA records and nothing
    else;
  - the calls go out in order, one per reported record;
  - on a zone that is already reconciled, both phases are no-ops.
- `controller.dfy` (module `Controller`) holds the event and the health
  check. Its lemmas cover one event end to end: after one event the zone is
  reconciled, and a second event with the same inputs changes nothing.

The provider's server-side filter is an assumption of the model. `Listing`
takes it to return exactly the zone's records of type TLSA with the
requested name, in zone order. A created record gets an id that no record of
the zone has (`FreshId`). Its content is the raw authoritative content that
was posted.

Some behaviours of the code worth knowing, all modelled as written:

- Content that does not split into four fields is not skipped. It is posted
  with the missing fields undefined (`PostBodyOfBlank`), and fields past the
  fourth are dropped (`PostBodyOfLongContent`).
- The same content listed twice by the mail server is created twice
  (`AdditionsMultiplicity`), because the listing is read once before the
  loop.
- The deletion test compares against the contents of records of every type,
  not only TLSA.
- The answer also carries the fetched records.
- The code has no guard against overlapping events.
- An empty zone lookup fails when `id` is read, before any change is made
  (`Controller.Event`).

## Model

| member | source | states |
|---|---|---|
| Types.TypeNameInjective | src/types.ts:2 | two of the five record types have the same wire spelling exactly when they are the same type |
| Provider.SameIdSameRecord | src/types.ts:89-93 | in a zone with distinct ids, two records with the same id are the same record |
| Text.Trim | src/app.service.ts:110-111 | the trimmed content neither starts nor ends with white space |
| Text.TrimIsInfix | src/app.service.ts:110-111 | trimming removes only white space at the two ends: the result is an infix of the content with white space around it |
| Text.TrimPadded | src/app.service.ts:110-111 | trimming white space around a core that has no white space at its ends gives exactly that core |
| Text.SplitWs | src/app.service.ts:110-112 | splitting at white space runs gives at least one piece, and no piece contains white space |
| Text.SplitWsOfRuns | src/app.service.ts:110-112 | nonempty space-free fields separated by nonempty runs of any white space split back into exactly those fields |
| Text.Split | src/app.service.ts:59-61 | `split(',')` never returns an empty list |
| Text.SplitPieces | src/app.service.ts:59-61 | no piece of a split contains the separator |
| Text.JoinOfSplit | src/app.service.ts:59-61 | joining the pieces with the separator gives the string back |
| Text.SplitOfJoin | src/app.service.ts:59-61 | separator-free pieces joined by the separator split back into the same pieces |
| Reconciler.CanonicalNameInjective | src/app.service.ts:116 | two hostnames have the same `_25._tcp.` name exactly when they are equal |
| Reconciler.Contents | src/app.service.ts:172 | the contents list has one entry per record: the content of the record at the same index |
| Reconciler.TlsaRecords | src/app.service.ts:100-102 | the filter keeps exactly the records of type TLSA |
| Reconciler.TlsaRecordsCount | src/app.service.ts:100-102 | the filter keeps each TLSA record as many times as it occurs and drops every other record, so repeated records are not merged |
| Reconciler.TlsaRecordsBySpelling | src/app.service.ts:100-102 | the filter is the comparison of the type's wire spelling with the string `'TLSA'`: it keeps exactly the records so spelled |
| Reconciler.TlsaRecordsConcat | src/app.service.ts:100-102 | the filter keeps the input order: filtering a concatenation gives the filtered parts, concatenated in the same order |
| Reconciler.Fields | src/app.service.ts:110-112 | a content always yields at least one field, so `usage` is always defined |
| Reconciler.Entries | src/app.service.ts:183-187 | one report entry per deleted record, in order, with its name, type TLSA and content |
| Reconciler.AddedShape | src/app.service.ts:109-150 | every record the loop adds is TLSA, sits under the canonical name, carries the content of one of the TLSA records it walked, and was not listed |
| Reconciler.AdditionsShape | src/app.service.ts:100-150 | every added record is TLSA under the canonical name, with the content of an authoritative TLSA record, and was not listed under that name |
| Reconciler.AddedComplete | src/app.service.ts:127-149 | every TLSA content not listed under the canonical name is added |
| Reconciler.AdditionsEmptyIff | src/app.service.ts:100-151 | nothing is added exactly when every authoritative TLSA content is already listed under the canonical name |
| Reconciler.AddedMultiplicity | src/app.service.ts:109-150 | a content is added once per walked TLSA record that carries it when it is unlisted, and never when it is listed |
| Reconciler.AdditionsMultiplicity | src/app.service.ts:100-150 | an unlisted content is added as many times as authoritative TLSA records carry it, and a listed one never |
| Reconciler.AddedConcat | src/app.service.ts:109-150 | additions, and so create calls, come in the order of the TLSA records walked: the additions for a concatenation are those of each part, in turn |
| Reconciler.FieldsOfRuns | src/app.service.ts:110-112 | the fields of a content are exactly its space-free words, whatever runs of white space separate and surround them |
| Reconciler.PostBodyOfFourFields | src/app.service.ts:110-124 | a content of four fields separated by runs of any white space, padded by any white space, posts exactly those four fields in order |
| Reconciler.PostBodyOfLongContent | src/app.service.ts:110-124 | a content of more than four fields posts its first four and drops the rest |
| Reconciler.PostBodyOfBlank | src/app.service.ts:110-124 | a blank content is still posted: it has an empty usage and the other three fields undefined |
| Reconciler.StaleExact | src/app.service.ts:170-189 | a listed record is deleted exactly when its content is not authoritative or its name is not canonical, once per listing, and nothing outside the listing is deleted |
| Reconciler.StaleMembership | src/app.service.ts:170-174 | a record is deleted exactly when it is listed and either its content is among no record's contents or its name is not canonical |
| Reconciler.StaleConcat | src/app.service.ts:170-189 | deletions, and so delete calls and report entries, come in listing order: the stale records of a concatenated listing are those of each part, in turn |
| Reconciler.DeletionsEmptyIff | src/app.service.ts:170-191 | nothing is deleted exactly when every listed record has the canonical name and an authoritative content |
| Provider.ListingMembership | src/app.service.ts:202-210 | the listing for a name holds exactly the zone's TLSA records with that name |
| Provider.FreshId | src/app.service.ts:136-144 | the id given to a created record is not the id of any record in the zone |
| Provider.WithoutId | src/app.service.ts:175-182 | deleting by id keeps exactly the records with other ids, and ids stay distinct |
| Provider.ExternalZone.List | src/app.service.ts:202-210 | listing answers the filtered records, changes no record and logs one list call |
| Provider.ExternalZone.Post | src/app.service.ts:136-144 | a create call appends one record with a fresh id and the posted name and type, and logs the call with its body |
| Provider.ExternalZone.Delete | src/app.service.ts:175-182 | a delete call removes the record with that id and logs the call |
| Service.RemoveAllExact | src/app.service.ts:170-182 | deleting the stale records one by one keeps exactly the records whose id was not deleted, and ids stay distinct |
| Service.Hostnames | src/app.service.ts:59-61 | the hostnames setting always yields at least one hostname |
| Service.HostnamesJoin | src/app.service.ts:59-61 | the hostnames are comma-free, untrimmed, and joined by commas give the setting back |
| Service.HostnamesOfJoin | src/app.service.ts:59-61 | a setting made of comma-free hostnames joined by commas yields exactly those hostnames |
| Service.GetHealthz | src/app.service.ts:21-23 | the health check answers "OK" |
| Service.GetDNSRecords | src/app.service.ts:25-37 | the records are the `data` of the mail server's answer |
| Service.GetZone | src/app.service.ts:39-53 | the zone is the first of the lookup answer, and it is undefined exactly when the answer lists none |
| Service.GetCloudflareTLSARecords | src/app.service.ts:194-211 | the existing records are the listing under the canonical name, and exactly one list call is logged |
| Service.AddTLSARecords | src/app.service.ts:89-152 | the loop leaves the zone, the call log and the report exactly as `Step(Addition, …)` describes |
| Service.DeleteUnusedTLSARecords | src/app.service.ts:154-192 | the loop leaves the zone, the call log and the report exactly as `Step(Deletion, …)` describes |
| Service.AddAllTLSARecords | src/app.service.ts:55-68 | running the addition per configured hostname gives `Run(Addition, …)`: the final zone and calls, and the reports concatenated in hostname order |
| Service.DeleteAllUnusedTLSARecords | src/app.service.ts:70-87 | running the deletion per configured hostname gives `Run(Deletion, …)`: the final zone and calls, and the reports concatenated in hostname order |
| Phases.PostCallsShape | src/app.service.ts:136-144 | the create calls keep the earlier log and then post, in order, the body built from each added content |
| Phases.DeleteCallsShape | src/app.service.ts:175-182 | the delete calls keep the earlier log and then delete, in order, the id of each stale record |
| Phases.PostAllAppends | src/app.service.ts:136-149 | creating records keeps the zone as a prefix and appends one TLSA record per added record, with its name and content |
| Phases.PostAllDistinct | src/app.service.ts:136-144 | creating records keeps the zone's ids distinct |
| Phases.AddedRecords | src/app.service.ts:109-149 | the records created for a hostname are TLSA records under its canonical name, with authoritative contents |
| Phases.AddedCover | src/app.service.ts:127-150 | after the creations for a hostname, every authoritative TLSA content is published under its canonical name |
| Phases.AdditionStep | src/app.service.ts:89-152 | the addition for a hostname only appends canonical TLSA records with authoritative contents, keeps ids distinct, and leaves every authoritative TLSA content published |
| Phases.AdditionCalls | src/app.service.ts:104-150 | the addition for a hostname lists once, then makes one create call per reported record, in order |
| Phases.ListedStaleByContent | src/app.service.ts:171-174 | a record listed for a hostname is stale exactly when its content is not authoritative: under the exact listing filter the name half of the test never holds |
| Phases.DeletionStep | src/app.service.ts:154-192 | the deletion for a hostname keeps a record exactly when it is not a TLSA record under the canonical name with a content that is not authoritative |
| Phases.DeletionCalls | src/app.service.ts:164-189 | the deletion for a hostname lists once, then reports and deletes by id each stale record, in listing order |
| Phases.ListCalls | src/app.service.ts:202-210 | a phase that changes nothing makes one list call per hostname, for its canonical name, in order |
| Phases.RunKeepsLog | src/app.service.ts:55-87 | a phase over all hostnames only appends to the call log |
| Phases.AdditionRun | src/app.service.ts:55-68 | the addition over all hostnames only appends TLSA records with authoritative contents under some hostname's canonical name, and leaves every authoritative TLSA content published under every hostname |
| Phases.DeletionRun | src/app.service.ts:70-87 | the deletion over all hostnames keeps a record exactly when it is not unwanted for any hostname, and keeps ids distinct |
| Phases.AdditionFixpoint | src/app.service.ts:127-135 | on a zone where every content is already published, the addition creates and reports nothing and only lists |
| Phases.DeletionFixpoint | src/app.service.ts:170-174 | on a zone with no unwanted record, the deletion deletes and reports nothing and only lists |
| Controller.GetHealthz | src/app.controller.ts:10-13 | `GET /healthz` answers "OK" |
| Controller.Event | src/app.controller.ts:17-39 | an empty zone lookup fails without changing the zone; otherwise the answer holds the fetched records and both phases' reports, the zone is what the addition and then the deletion leave, and it is reconciled |
| Controller.EventReconciles | src/app.controller.ts:18-27 | after one event the zone publishes every authoritative TLSA content under every canonical name and holds no unwanted record; created records survive; an original record is kept exactly when it is not unwanted; the deletion calls follow the addition calls |
| Controller.SecondEventChangesNothing | src/app.controller.ts:17-39 | a second event with the same inputs creates and deletes nothing and only lists, once per hostname in each phase |

## Left out

- HTTP transport and upstream failures are not modelled. A rejected create or delete call, a failed fetch, and the partial changes that remain after a failure are not part of this model: the provider always accepts.
- Configuration values read with `getOrThrow` are parameters of the model. `STALWART_HOSTNAMES` is one of them; the URLs and API keys play no part in the decisions.
- The API-key guard (`src/api.guard.ts`) and the module wiring (`src/app.module.ts`, which also sets up a cache that the code never uses) are not part of this model.
- `async`/`await` is modelled as sequential execution in source order. Concurrent events and their interleavings are not modelled, since the code has no guard or lock.
- `console.info` logging of the answer is left out (no observable effect on the zone).
- How the provider derives a record's content from the posted `data` object is not modelled: a created record carries the raw authoritative content.
- Provider.Listing: the provider's filter on type and name is an assumption: the listing holds exactly the zone's TLSA records whose stored name equals the queried name, and pagination is not modelled. Together with Provider.ExternalZone.Post storing the posted name verbatim, this makes the `name !==` half of the deletion test inert in the phase and event lemmas (`Phases.ListedStaleByContent`): a provider that normalises names (for example lower-cases them) is not modelled. The per-hostname lemmas of `Reconciler` (StaleExact, StaleMembership, DeletionsEmptyIff, AdditionsEmptyIff) hold for any listing and cover that half of the test.
- Provider.ExternalZone.Post: the posted name is stored verbatim, so an untrimmed hostname such as `" mail.b.com"` yields a record named `_25._tcp. mail.b.com`; whether the real provider accepts or rewrites such a name is not modelled.
- Provider.FreshId: the provider's id assignment is modelled by a deterministic stand-in, a string longer than every id in the zone.
- Types.TlsaData: the value ranges of the provider's TLSA data are documented but nothing checks them, and the updater never reads that data.
- Zone and record fields other than those the updater reads (status, ttl, timestamps and the rest) are left out.
