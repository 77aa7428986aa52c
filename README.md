# Player service of the JavaRush game-player registry, in Dafny

This project models the service layer of a small player registry: the `Player` entity and the `PlayerService` that searches, counts, creates, updates, reads and deletes players. A player has an id, a name, a title, a race, a profession, a birthday, a banned flag, an experience, a level and the experience still missing to the next level.

The model is split into one module per concern:

- `PlayerEntity` (player.dfy) holds the mutable entity as a class with ten nullable fields and a getter and setter per field, plus the `Record` value a stored row holds.
- `Repository` (repository.dfy) is the player table as a class over a map from id to `Record`. Identity-column ids are handed out in increasing order. `findById` loads a new entity object from the row, and `save` inserts under the next id or overwrites.
- `Leveling` (leveling.dfy) holds the closed-form level formula over an exact integer square root. Lemmas prove that it is the greatest `L` with `50 L (L + 1) <= experience`, that the level is monotone, and that the `int` arithmetic does not overflow for accepted experience.
- `JavaStrings` (javastrings.dfy) holds `toUpperCase`, `contains` and `compareTo` on strings.
- `Filtering` (filtering.dfy) holds the eleven search criteria, the predicate each one tests, and their step-by-step application. It proves that the chain selects exactly the players matching every supplied argument, in table order, and it states the count.
- `Ordering` (ordering.dfy) holds the comparator for each requested order, a stable insertion sort as the reference, its sortedness, permutation, stability and uniqueness, and the in-place array sort proved equal to it.
- `Paging` (paging.dfy) holds the page window, including what happens when the window starts past the end.
- `Service` (service.dfy) holds the validators, the id check, and the service operations as methods of a class over the repository. Separate lemmas prove that create, update and delete keep every stored player consistent: checked fields in range, and level and untilNextLevel following the experience.

`Wrappers` (wrappers.dfy) provides `Option`, `Result` and `Outcome`, and the three errors the service raises: bad request, not found, and the index error `subList` throws.

## Model

| member | source | states |
|---|---|---|
| PlayerEntity.Player.constructor | src/main/java/com/game/entity/Player.java:9-18 | a new entity has all ten fields unset (null) |
| PlayerEntity.Player.GetId | src/main/java/com/game/entity/Player.java:22-24 | returns the current id |
| PlayerEntity.Player.SetId | src/main/java/com/game/entity/Player.java:26-28 | the id becomes the argument; only the id field may change |
| PlayerEntity.Player.GetName | src/main/java/com/game/entity/Player.java:30-33 | returns the current name |
| PlayerEntity.Player.SetName | src/main/java/com/game/entity/Player.java:35-37 | the name becomes the argument; only the name field may change |
| PlayerEntity.Player.GetTitle | src/main/java/com/game/entity/Player.java:39-41 | returns the current title |
| PlayerEntity.Player.SetTitle | src/main/java/com/game/entity/Player.java:43-45 | the title becomes the argument; only the title field may change |
| PlayerEntity.Player.GetRace | src/main/java/com/game/entity/Player.java:48-50 | returns the current race |
| PlayerEntity.Player.SetRace | src/main/java/com/game/entity/Player.java:52-54 | the race becomes the argument; only the race field may change |
| PlayerEntity.Player.GetProfession | src/main/java/com/game/entity/Player.java:57-59 | returns the current profession |
| PlayerEntity.Player.SetProfession | src/main/java/com/game/entity/Player.java:61-63 | the profession becomes the argument; only that field may change |
| PlayerEntity.Player.GetBirthday | src/main/java/com/game/entity/Player.java:66-68 | returns the current birthday |
| PlayerEntity.Player.SetBirthday | src/main/java/com/game/entity/Player.java:70-72 | the birthday becomes the argument; only that field may change |
| PlayerEntity.Player.GetBanned | src/main/java/com/game/entity/Player.java:74-76 | returns the current banned flag |
| PlayerEntity.Player.SetBanned | src/main/java/com/game/entity/Player.java:78-80 | the banned flag becomes the argument; only that field may change |
| PlayerEntity.Player.GetExperience | src/main/java/com/game/entity/Player.java:82-84 | returns the current experience |
| PlayerEntity.Player.SetExperience | src/main/java/com/game/entity/Player.java:86-88 | the experience becomes the argument; only that field may change |
| PlayerEntity.Player.GetLevel | src/main/java/com/game/entity/Player.java:90-92 | returns the current level |
| PlayerEntity.Player.SetLevel | src/main/java/com/game/entity/Player.java:94-96 | the level becomes the argument; only that field may change |
| PlayerEntity.Player.GetUntilNextLevel | src/main/java/com/game/entity/Player.java:98-100 | returns the current untilNextLevel |
| PlayerEntity.Player.SetUntilNextLevel | src/main/java/com/game/entity/Player.java:102-104 | untilNextLevel becomes the argument; only that field may change |
| PlayerEntity.Player.ToRecord | src/main/java/com/game/entity/Player.java:9-18 | the row a complete entity makes under the key holds exactly the entity's fields when the key is its id |
| PlayerEntity.Player.HoldsOne | src/main/java/com/game/entity/Player.java:9-18 | helper: the ten fields determine the row they describe |
| PlayerEntity.SetExperienceKeepsLevel | src/main/java/com/game/entity/Player.java:86-96 | level and untilNextLevel are independent of experience: setting the experience leaves the level the getter reports, and every other field, unchanged |
| Repository.Without | src/main/java/com/game/service/PlayerService.java:94 | removing an id keeps exactly the other ids, and keeps them distinct |
| Repository.PlayerRepository.constructor | src/main/java/com/game/service/PlayerService.java:22 | an empty table whose first generated id is 1 |
| Repository.PlayerRepository.ExistsById | src/main/java/com/game/service/PlayerService.java:98 | true exactly when a row has that id |
| Repository.PlayerRepository.FindById | src/main/java/com/game/service/PlayerService.java:205 | a new entity exactly when the id is stored, holding that row's fields |
| Repository.PlayerRepository.FindAll | src/main/java/com/game/service/PlayerService.java:108 | every stored player exactly once |
| Repository.PlayerRepository.DeleteById | src/main/java/com/game/service/PlayerService.java:94 | the table loses exactly that id; the id counter is unchanged |
| Repository.PlayerRepository.Save | src/main/java/com/game/service/PlayerService.java:181 | an entity without id gets the next id, written back into it, and the counter advances; an entity with id overwrites its row; the table maps the id to the entity's fields and nothing else changes |
| JavaStrings.UpperChar | src/main/java/com/game/service/PlayerService.java:89 | one character of `toUpperCase`: ASCII `a`..`z` to `A`..`Z`, every other character kept; its meaning is `JavaStrings.UpperCharIff` |
| JavaStrings.UpperCharIff | src/main/java/com/game/service/PlayerService.java:89 | two characters upper-case alike exactly when they are equal ignoring case |
| JavaStrings.ToUpperCase | src/main/java/com/game/service/PlayerService.java:89 | the result has the same length, no lower-case letter, and each character equal to the original one ignoring case, which determines it |
| JavaStrings.UpperCaseIdempotent | src/main/java/com/game/service/PlayerService.java:89 | upper-casing twice is upper-casing once |
| JavaStrings.Contains | src/main/java/com/game/service/PlayerService.java:89 | `String.contains`; its meaning is `JavaStrings.ContainsIff` |
| JavaStrings.ContainsIff | src/main/java/com/game/service/PlayerService.java:89 | `contains` holds exactly when the needle occurs at some index (the empty needle everywhere) |
| JavaStrings.ContainsIgnoreCase | src/main/java/com/game/service/PlayerService.java:88-90 | the `hasName`/`hasTitle` test; its meaning is `JavaStrings.ContainsIgnoreCaseIff` |
| JavaStrings.OccursAtUpper | src/main/java/com/game/service/PlayerService.java:89 | helper: at one index, an occurrence among the upper-cased strings is a match ignoring case |
| JavaStrings.ContainsIgnoreCaseIff | src/main/java/com/game/service/PlayerService.java:154-156 | the test holds exactly when the needle matches the field at some index, each character compared ignoring case |
| JavaStrings.LexLe | src/main/java/com/game/service/PlayerService.java:29 | `compareTo(b) <= 0`: the first differing character decides, a prefix comes first; its order properties are the three lemmas below |
| JavaStrings.LexLeTotal | src/main/java/com/game/service/PlayerService.java:29 | any two names are comparable |
| JavaStrings.LexLeTransitive | src/main/java/com/game/service/PlayerService.java:29 | the name order is transitive |
| JavaStrings.LexLeAntisymmetric | src/main/java/com/game/service/PlayerService.java:29 | names that compare equal are equal |
| Leveling.LevelOf | src/main/java/com/game/service/PlayerService.java:167 | the level formula over the exact integer root; its meaning is `Leveling.LevelOfBand` and `Leveling.LevelIsGreatest` |
| Leveling.UntilNextLevelOf | src/main/java/com/game/service/PlayerService.java:168 | `50 (L+1)(L+2) - experience`; its bounds are `Leveling.UntilNextLevelBounds` |
| Leveling.FloorSqrtIsRoot | src/main/java/com/game/service/PlayerService.java:167 | the integer root `r` of `n` satisfies `r*r <= n < (r+1)*(r+1)` |
| Leveling.LevelOfBand | src/main/java/com/game/service/PlayerService.java:167 | the level is non-negative and the experience lies in `[50 L (L+1), 50 (L+1)(L+2))` |
| Leveling.LevelIsGreatest | src/main/java/com/game/service/PlayerService.java:167 | every `L >= 0` with `50 L (L+1) <= experience` is at most the level, so the level is the greatest such `L` |
| Leveling.LevelMonotone | src/main/java/com/game/service/PlayerService.java:220 | more experience never gives a lower level |
| Leveling.BandWidth | src/main/java/com/game/service/PlayerService.java:168 | the band of level `L` is `100 (L+1)` wide |
| Leveling.UntilNextLevelBounds | src/main/java/com/game/service/PlayerService.java:168 | `1 <= untilNextLevel <= 100 (L+1)` |
| Leveling.LevelFormulaFitsInt | src/main/java/com/game/service/PlayerService.java:167-168 | for accepted experience `2500 + 200*experience` and `50 (L+1)(L+2)` fit in a Java `int`, and the level is at most 446 |
| Filtering.Holds | src/main/java/com/game/service/PlayerService.java:44-62 | the per-player test of each criterion, as the service's helpers at lines 44-62, 76-89 and 145-156 compute it; what the tests mean together is `Filtering.PassesMatch` |
| Filtering.Select | src/main/java/com/game/service/PlayerService.java:110-140 | one `stream().filter(...).collect(toList())`: the passing elements in order; its meaning is `Filtering.SelectMembers` and `Filtering.SelectThen` |
| Filtering.Steps | src/main/java/com/game/service/PlayerService.java:109-141 | the tests the chain applies, one per supplied argument, in the order of the `if`s |
| Filtering.HoldsAllAppend | src/main/java/com/game/service/PlayerService.java:107-143 | passing a concatenated chain means passing both parts |
| Filtering.HoldsAllStepIf | src/main/java/com/game/service/PlayerService.java:109-111 | a supplied argument adds its test; a null one adds nothing |
| Filtering.StepsHold | src/main/java/com/game/service/PlayerService.java:107-143 | passing the whole chain means being admitted by every argument: a null one admits everyone, a supplied one those passing its test |
| Filtering.PassesMatch | src/main/java/com/game/service/PlayerService.java:44-62 | being admitted by every argument is the declarative match: substring ignoring case for name and title, equality for race, profession and banned, inclusive experience and level bounds, strict birthday bounds |
| Filtering.StepsMatch | src/main/java/com/game/service/PlayerService.java:107-143 | a player passes the chain exactly when it matches the filter |
| Filtering.SelectMembers | src/main/java/com/game/service/PlayerService.java:110 | a filter step keeps exactly the passing elements |
| Filtering.SelectNothing | src/main/java/com/game/service/PlayerService.java:108 | with no argument supplied the list is returned whole |
| Filtering.SelectThen | src/main/java/com/game/service/PlayerService.java:109-113 | filtering the filtered list by one more test equals filtering once by the longer chain |
| Filtering.SelectedIdsSnoc | src/main/java/com/game/service/PlayerService.java:110 | the ids selected from a list with one more player gain that player's id exactly when it passes |
| Filtering.SelectCount | src/main/java/com/game/service/PlayerService.java:151 | on a list of distinct ids the filtered length equals the number of selected ids |
| Filtering.ListingCount | src/main/java/com/game/service/PlayerService.java:149-152 | the filtered length of a listing equals the number of stored ids that pass |
| Filtering.StepsFromNothing | src/main/java/com/game/service/PlayerService.java:109-141 | helper: the applied chain, built up from nothing, is `Steps` |
| Filtering.SearchMembers | src/main/java/com/game/service/PlayerService.java:107-143 | the result holds exactly the listed players matching the filter |
| Ordering.KeyLe | src/main/java/com/game/service/PlayerService.java:28-38 | the comparator chosen for the requested order: name, birthday, level, experience, or id for none; its order properties are the two lemmas below |
| Ordering.StableSort | src/main/java/com/game/service/PlayerService.java:28-38 | the reference stable sort; it is sorted, a permutation, stable and the only such rearrangement, by the lemmas below |
| Ordering.KeyLeTotal | src/main/java/com/game/service/PlayerService.java:28-38 | every comparator compares any two players |
| Ordering.KeyLeTransitive | src/main/java/com/game/service/PlayerService.java:28-38 | every comparator is transitive |
| Ordering.ConsSorted | src/main/java/com/game/service/PlayerService.java:28-38 | a head no greater than a sorted tail keeps it sorted |
| Ordering.InsertPermutes | src/main/java/com/game/service/PlayerService.java:28-38 | inserting adds exactly the element |
| Ordering.InsertSorted | src/main/java/com/game/service/PlayerService.java:28-38 | inserting into a sorted list keeps it sorted |
| Ordering.StableSortSortedPermutation | src/main/java/com/game/service/PlayerService.java:28-38 | the sort is ascending and a permutation of its input |
| Ordering.EqualKeysAppend | src/main/java/com/game/service/PlayerService.java:28-38 | the players with a given key in a concatenation are those of each part, in order |
| Ordering.EqualKeysNone | src/main/java/com/game/service/PlayerService.java:28-38 | a list without a key has no players with that key |
| Ordering.InsertFrontEqualKeys | src/main/java/com/game/service/PlayerService.java:28-38 | an element put in front of a sorted list comes after its equals in that list |
| Ordering.InsertEqualKeys | src/main/java/com/game/service/PlayerService.java:28-38 | inserting puts the element after every equal one already there |
| Ordering.StableSortIsStable | src/main/java/com/game/service/PlayerService.java:28-38 | players with equal keys keep their relative order |
| Ordering.EqualKeysMembers | src/main/java/com/game/service/PlayerService.java:28-38 | the equal-key sublist holds exactly the players with that key |
| Ordering.SortedHead | src/main/java/com/game/service/PlayerService.java:28-38 | the head of a sorted list is no greater than any element |
| Ordering.SortedUnique | src/main/java/com/game/service/PlayerService.java:28-38 | two sorted lists with the same equal-key sublists are equal |
| Ordering.StableSortIsUnique | src/main/java/com/game/service/PlayerService.java:28-38 | any sorted, stable rearrangement is the reference sort, so every stable sort, the library's included, gives it |
| Ordering.InsertAt | src/main/java/com/game/service/PlayerService.java:28-38 | inserting places the element right after the last element not greater than it |
| Ordering.Shifted | src/main/java/com/game/service/PlayerService.java:28-38 | one shift-and-place pass extends the sorted prefix by the next element |
| Ordering.InsertInPlace | src/main/java/com/game/service/PlayerService.java:28-38 | the element moves left past every greater one and stops after a smaller or equal one; the others shift right by one |
| Ordering.SortInPlace | src/main/java/com/game/service/PlayerService.java:28-38 | the array ends up holding the stable sort of its old contents |
| Paging.GetPage | src/main/java/com/game/service/PlayerService.java:64-74 | null page number means 0 and null size 3; a window starting inside the list is cut there and is at most one page long; a window past the end is the last `pageSize` players, or an index error when the list is shorter than a page |
| Paging.WholeListPage | src/main/java/com/game/service/PlayerService.java:64-74 | page 0 with the whole count as size returns the whole list |
| Service.IsNameInvalid | src/main/java/com/game/service/PlayerService.java:196-201 | a name is rejected when null, longer than 12 characters or empty |
| Service.IsTitleInvalid | src/main/java/com/game/service/PlayerService.java:191-194 | a title is rejected when null or longer than 30 characters |
| Service.NewRecord | src/main/java/com/game/service/PlayerService.java:165-179 | the row a create stores: banned defaults to false, level and untilNextLevel from the formula; its consistency is `Service.NewRecordConsistent` |
| Service.Updated | src/main/java/com/game/service/PlayerService.java:208-226 | the row an update stores; what it changes is `Service.UpdatedOnlySupplied` |
| Service.StoreConsistent | src/main/java/com/game/service/PlayerService.java:181 | storing a consistent row keeps the table consistent |
| Service.UpdatedOnlySupplied | src/main/java/com/game/service/PlayerService.java:208-226 | an update replaces exactly the supplied fields, never the id, and keeps level and untilNextLevel when no experience is supplied |
| Service.UpdateOnlyBanned | src/main/java/com/game/service/PlayerService.java:226 | updating only the banned flag leaves every other field as it was |
| Service.NewRecordConsistent | src/main/java/com/game/service/PlayerService.java:163-179 | a created row has its checked fields in range and its level fields following its experience |
| Service.UpdatedConsistent | src/main/java/com/game/service/PlayerService.java:212-226 | an update that passes its checks keeps a row consistent |
| Service.UpdateKeepsConsistent | src/main/java/com/game/service/PlayerService.java:203-230 | a successful update keeps every stored player consistent |
| Service.CreateKeepsConsistent | src/main/java/com/game/service/PlayerService.java:158-183 | a successful create keeps every stored player consistent |
| Service.DeleteKeepsConsistent | src/main/java/com/game/service/PlayerService.java:92-95 | a delete keeps every stored player consistent |
| Service.PlayerService.constructor | src/main/java/com/game/service/PlayerService.java:21-22 | the service is bound to a valid repository and its year-of-instant function, and is valid |
| Service.PlayerService.CreateRejects | src/main/java/com/game/service/PlayerService.java:159-164 | the six checks of `createPlayer`, any failing one rejecting the request |
| Service.PlayerService.HasPlayer | src/main/java/com/game/service/PlayerService.java:97-99 | true exactly when the id is stored |
| Service.PlayerService.CheckValidId | src/main/java/com/game/service/PlayerService.java:232-239 | a bad request exactly when the id is null or below 1; not found exactly when it is positive and absent; passes exactly when it is stored |
| Service.PlayerService.GetPlayer | src/main/java/com/game/service/PlayerService.java:101-105 | the stored player's fields when the id is stored; otherwise bad request or not found as the id check decides |
| Service.PlayerService.DeletePlayer | src/main/java/com/game/service/PlayerService.java:92-95 | on a stored id removes exactly that row; on failure, bad request or not found, the table is unchanged |
| Service.PlayerService.Narrow | src/main/java/com/game/service/PlayerService.java:109-111 | one link of the chain extends the applied criteria by the supplied argument's test |
| Service.PlayerService.FilterChain | src/main/java/com/game/service/PlayerService.java:108-142 | the eleven links apply exactly the supplied arguments' tests, in source order |
| Service.PlayerService.GetPlayers | src/main/java/com/game/service/PlayerService.java:107-143 | the order-preserving sublist of the table listing holding exactly the players matching the filter |
| Service.PlayerService.GetPlayersPage | src/main/java/com/game/service/PlayerService.java:24-42 | the requested page of the stable sort of the filtered list |
| Service.PlayerService.GetPlayersCount | src/main/java/com/game/service/PlayerService.java:149-152 | the number of stored players matching the filter |
| Service.PlayerService.BuildPlayer | src/main/java/com/game/service/PlayerService.java:170-179 | a new entity without id holding the given field values |
| Service.PlayerService.CreatePlayer | src/main/java/com/game/service/PlayerService.java:158-183 | bad request, with the table unchanged, exactly when one of the six checks fails; otherwise exactly one new row under the next id, with banned defaulting to false and level and untilNextLevel from the formula |
| Service.PlayerService.PatchProfile | src/main/java/com/game/service/PlayerService.java:208-211 | name, title, race and profession replaced when supplied, other fields kept |
| Service.PlayerService.PatchProgress | src/main/java/com/game/service/PlayerService.java:218-224 | experience set, level and untilNextLevel derived from it |
| Service.PlayerService.Patch | src/main/java/com/game/service/PlayerService.java:208-226 | succeeds exactly when the supplied birthday and experience are in range, and then the entity holds the updated row |
| Service.PlayerService.UpdateStored | src/main/java/com/game/service/PlayerService.java:205-229 | for a stored id: bad request, with the table unchanged, exactly when a supplied birthday or experience is out of range; otherwise the row is replaced by the update of exactly the supplied fields |
| Service.PlayerService.UpdatePlayer | src/main/java/com/game/service/PlayerService.java:203-230 | the id check's errors, or bad request for an out-of-range birthday or experience, with the table unchanged; otherwise the row is replaced by the update of exactly the supplied fields |
| Service.PlayerService.CreatePlayerKeepsConsistent | src/main/java/com/game/service/PlayerService.java:158-183 | creating through the service keeps every stored player consistent, and rejects exactly when a check fails |
| Service.PlayerService.UpdatePlayerKeepsConsistent | src/main/java/com/game/service/PlayerService.java:203-230 | updating through the service keeps every stored player consistent |
| Service.PlayerService.DeletePlayerKeepsConsistent | src/main/java/com/game/service/PlayerService.java:92-95 | deleting through the service keeps every stored player consistent |

## Left out

- The HTTP controller, the translation of exceptions into HTTP statuses, and Spring's wiring are not modelled. The service's thrown exceptions become `Result` and `Outcome` errors.
- The repository is an abstract table with identity-column ids. JPA sessions, flushing and the persistence context are not modelled. `findById` returns a new detached entity loaded from the row, so the setters reach the table only through `save`, and `save` returns the object it was given. The `PlayerRepository` declaration itself is not part of this model.
- `Repository.PlayerRepository.FindAll`: returns the rows in the table's internal order. No query promises an order, so the search results are stated over that listing and not over any particular order.
- `Service.PlayerService.constructor`: `getYear` reads the calendar year in the default time zone. That year is the service's `yearOf` parameter, an arbitrary function.
- `@Temporal(TemporalType.DATE)` truncates the stored birthday to a date. The model stores the instant as given.
- `Math.sqrt` and the `double` division are replaced by the exact integer square root. `Leveling.LevelOf` argues why the truncated real quotient and the integer quotient agree. Floating-point rounding of the root is not modelled.
- Upper-casing is modelled on the ASCII letters only. `String.toUpperCase()` uses the default locale, and in a Turkish locale even the ASCII `i` becomes a dotted capital `İ`; the model does not depend on a locale. Java's full Unicode case mapping, and the UTF-16 code units of Java strings, are not modelled: Dafny characters are Unicode scalar values.
- The `Race`, `Profession` and `PlayerOrder` declarations are not part of this model. A race or profession is kept as its constant's name, and the orders are those the service's sort branches name, plus id.
- `isBanned` compares `Boolean` objects with `==`. The model compares the values.
- `Paging.GetPage`: requires non-negative page arguments and no Java `int` overflow in `pageNumber * pageSize + pageSize`. Those inputs are not modelled.
- Java `int` overflow elsewhere is not modelled, since accepted experience keeps the level formula in range (`Leveling.LevelFormulaFitsInt`).
- The `IllegalStateException` of `orElseThrow` in `getPlayer` and `updatePlayer` is not modelled, because it cannot happen after the id check in a sequential model.
- `List.sort` is TimSort. Here it is an insertion sort on an array. `Ordering.StableSortIsUnique` shows that any stable sort gives the same result.
- Concurrent requests are not modelled.
- Name and title lengths on update: the service's update does not check them, so the model does not either.
