# VisionHive core in Dafny

VisionHive is a fleet-yard management API. It has three entities:

- a **Filial** is a branch, identified by a name, a district (*bairro*) and a CNPJ, the Brazilian company tax id;
- a **Patio** is a yard belonging to one branch, with a vehicle capacity (*limiteMotos*);
- a **Moto** is a motorcycle parked in one yard. It is identified by at least one of plate, chassis or engine number, and it has a priority.

This project models the part of the system that holds the rules:

- **The entities.** They validate themselves: a validating constructor creates each one, and `AtualizarDados` changes it only after validating the new values (`Entities`).
- **The three repositories and their interfaces.** Each offers Add, GetById, Update and Delete, plus a listing. A listing filters rows with a trimmed search term, orders them, and returns one page with the total count. The model runs them over an explicit store of three id-keyed tables (`Store`).
- **The database constraints declared by the three EF mappings.** These are the maximum column lengths (counted in UTF-16 code units, as `string.Length` counts them), the required columns, and the foreign keys with cascading delete (`Store.Valid`, `Store.Delete*`).
- **`PageResult`.** Its derived `TotalPages`, `HasNext` and `HasPrevious` values, and the Skip/Take slice that produces a page (`Pagination`).
- **The three use cases.** They normalise the paging parameters, check the input before calling the entity, and forward the call to the repository (`UseCases`).
- **The CNPJ rule of `FilialRequest`.** It is the `[RegularExpression]` `\d{2}\.\d{3}\.\d{3}/\d{4}-\d{2}` and `[Required]`, as a full-string matcher (`Cnpj`, `Requests`).

Supporting modules give the .NET primitives the code relies on, stated once:

- `Text`: `string.IsNullOrWhiteSpace`, `Trim`, ordinal `Contains`, the UTF-16 encoding that `string.Length` counts, and ordinal string order over UTF-16 code units;
- `Sequences`: LINQ `Where` and the enumeration of a table;
- `Sorting`: a stable functional sort, and proof that a strict total order fixes its result.

Module `Scenario` runs one end-to-end story through the use cases:

1. create a branch, a yard and two vehicles;
2. search the yard by name;
3. delete the branch, which cascades.

Failures are values, not exceptions:

- `ArgumentError(field)` is the `ArgumentException` a use case throws;
- `GeneralError(field)` is the plain `Exception` that entity validation and the Moto update use case throw;
- `PersistenceError` is a write the database refuses: a duplicate key, a missing parent row, or a value too long for its column.

A repository call returns the store afterwards together with its result. An entity mutation returns the object afterwards together with the exception it threw, if any.

## Model

Source paths are relative to the repository root.

| member | source | states |
|---|---|---|
| Entities.ValidarFilial | VisionHive.Domain/Entities/Filial.cs:32-46 | Validation passes exactly when name, district and CNPJ are all non-blank. When it fails, the error names the first blank field in the order nome, bairro, cnpj; each field is reported exactly when every earlier field is present. |
| Entities.NewFilial | VisionHive.Domain/Entities/Filial.cs:14-22 | The constructor succeeds exactly when the three fields are non-blank. The new branch carries the given id and values and satisfies the branch invariant. On failure it raises the validation error. |
| Entities.AtualizarFilial | VisionHive.Domain/Entities/Filial.cs:24-30 | An update that throws leaves the branch unchanged. An update that succeeds replaces the three text fields and keeps the id. A branch that satisfied its invariant still satisfies it afterwards. |
| Entities.ValidarPatio | VisionHive.Domain/Entities/Patio.cs:40-47 | Validation passes exactly when the name is non-blank and the capacity is positive. The name is reported before the capacity. |
| Entities.NewPatio | VisionHive.Domain/Entities/Patio.cs:18-26 | The constructor succeeds exactly when validation passes. The yard keeps the given branch id and satisfies the yard invariant. |
| Entities.AtualizarPatio | VisionHive.Domain/Entities/Patio.cs:28-33 | A failed update changes nothing. A successful one replaces only the name and the capacity: the identity and the owning branch are never changed. The yard invariant is preserved. |
| Entities.ValidarMoto | VisionHive.Domain/Entities/Moto.cs:47-53 | Validation passes exactly when at least one of plate, chassis and engine number is non-blank. Otherwise the error is always the identifiers error. |
| Entities.NewMoto | VisionHive.Domain/Entities/Moto.cs:22-33 | The constructor succeeds exactly when some identifier is present. The vehicle stores all inputs unchecked, including its priority and yard, and satisfies the vehicle invariant. |
| Entities.AtualizarMoto | VisionHive.Domain/Entities/Moto.cs:35-45 | A failed update changes nothing. A successful one replaces every field except the id, so the vehicle may change yard. The vehicle invariant is preserved. |
| Store.AddFilial | VisionHive.Infrastructure/Repositories/FilialRepository.cs:14-20 | The insert succeeds exactly when the key is unused and every column fits FilialMapping's lengths. On success the table gains exactly that row. On failure nothing changes. Both consistency invariants are preserved, and a new branch has no yards. |
| Store.AddPatio | VisionHive.Infrastructure/Repositories/PatioRepository.cs:14-20 | The insert succeeds exactly when the key is unused, the name fits, and the branch exists (foreign key). The yard starts with no vehicles and joins exactly its branch's yards. The invariants are preserved. |
| Store.AddMoto | VisionHive.Infrastructure/Repositories/MotoRepository.cs:14-20 | The insert succeeds exactly when the key is unused, the identifiers fit MotoMapping's lengths, and the yard exists. Capacity plays no part. The vehicle joins exactly its yard's vehicles. The invariants are preserved. |
| Store.PodeAdicionarMoto | VisionHive.Domain/Entities/Patio.cs:35-38 | A yard whose capacity is not positive never has room; an empty yard has room exactly when its capacity is positive. |
| Store.AddMotoUsesCapacity | VisionHive.Domain/Entities/Patio.cs:35-38 | Adding a vehicle counts against exactly its own yard: that yard has room afterwards exactly when one more vehicle is still below capacity, and every other yard's answer is unchanged. |
| Store.DeleteMotoFreesCapacity | VisionHive.Domain/Entities/Patio.cs:35-38 | Deleting a vehicle frees one place in its own yard and changes no other yard's answer. |
| Store.FindFilial | VisionHive.Infrastructure/Repositories/FilialRepository.cs:68-75 | A row is found exactly when the id is stored. In a consistent store, the row found has that id. |
| Store.FindPatio | VisionHive.Infrastructure/Repositories/PatioRepository.cs:64-72 | A row is found exactly when the id is stored. In a consistent store, the row found has that id and its branch exists. |
| Store.FindMoto | VisionHive.Infrastructure/Repositories/MotoRepository.cs:66-73 | A row is found exactly when the id is stored. In a consistent store, the row found has that id and its yard exists. |
| Store.UpdateFilial | VisionHive.Infrastructure/Repositories/FilialRepository.cs:77-85 | The three outcomes are exhaustive: an unknown id gives false and changes nothing; a column overflow gives a persistence error and changes nothing; otherwise exactly that row is overwritten and the result is true. The set of keys never changes and the invariants are preserved. |
| Store.UpdatePatio | VisionHive.Infrastructure/Repositories/PatioRepository.cs:74-82 | The same three outcomes. A foreign key to a missing branch is also refused. The keys and the invariants are preserved. |
| Store.UpdateMoto | VisionHive.Infrastructure/Repositories/MotoRepository.cs:75-84 | The same three outcomes. A move to a missing yard is refused. The keys and the invariants are preserved. |
| Store.DeleteFilial | VisionHive.Infrastructure/Repositories/FilialRepository.cs:87-99 | The result is true exactly when the branch existed; an unknown id changes nothing. The branch's yards, and the vehicles of those yards, are removed (FilialMapping and PatioMapping cascade). Every surviving row is unchanged. The invariants are preserved. |
| Store.DeletePatio | VisionHive.Infrastructure/Repositories/PatioRepository.cs:84-94 | The result is true exactly when the yard existed. The yard's vehicles are removed by cascade. Branches and other rows are unchanged. The invariants are preserved. |
| Store.DeleteMoto | VisionHive.Infrastructure/Repositories/MotoRepository.cs:86-96 | The result is true exactly when the vehicle existed. Only that row is removed. The invariants are preserved. |
| Store.DeleteFilialCascades | VisionHive.Infrastructure/Mappings/FilialMapping.cs:31-35 | After a branch is deleted, neither it, nor any of its yards, nor any vehicle of those yards can be found. Every other branch is still found unchanged. |
| Store.NameThenIdStrict | VisionHive.Infrastructure/Repositories/FilialRepository.cs:45-47 | Ordering by name and then by id is irreflexive and transitive. |
| Store.NameThenIdTotal | VisionHive.Infrastructure/Repositories/PatioRepository.cs:42-44 | Ordering by name and then by id ranks any two rows with different ids. |
| Store.FilialOrderStrict | VisionHive.Infrastructure/Repositories/FilialRepository.cs:45-47 | The branch listing order is a strict order. |
| Store.PatioOrderStrict | VisionHive.Infrastructure/Repositories/PatioRepository.cs:42-44 | The yard listing order is a strict order. |
| Store.ListingMembers | VisionHive.Infrastructure/Repositories/FilialRepository.cs:30-47 | A filtered, ordered listing contains exactly the table rows the filter selects. |
| Store.ListingFacts | VisionHive.Infrastructure/Repositories/FilialRepository.cs:30-47 | Under a strict order that ranks the table, the listing is increasing, has no duplicates, and has as many entries as there are selected rows. |
| Store.ListingCanonical | VisionHive.Infrastructure/Repositories/FilialRepository.cs:30-47 | The listing is the same whatever order the database reads the rows in. |
| Store.FiliaisRanked | VisionHive.Infrastructure/Repositories/FilialRepository.cs:45-47 | In a consistent store, name-then-id is a strict order that ranks every pair of branches. |
| Store.MotosRanked | VisionHive.Infrastructure/Repositories/MotoRepository.cs:45 | In a consistent store, descending id is a strict order that ranks every pair of vehicles. |
| Store.PatiosRanked | VisionHive.Infrastructure/Repositories/PatioRepository.cs:42-44 | In a consistent store, name-then-id is a strict order that ranks every pair of yards. |
| Store.OrderedFiliais | VisionHive.Infrastructure/Repositories/FilialRepository.cs:34-47 | The ordered branch listing holds exactly the branches whose name, district or CNPJ contains the trimmed term (all of them for a blank search). In a consistent store it is ordered by name then id, has no repeats, and has one entry per matching branch. |
| Store.OrderedPatios | VisionHive.Infrastructure/Repositories/PatioRepository.cs:35-44 | The same for yards, matched on the name. |
| Store.OrderedMotos | VisionHive.Infrastructure/Repositories/MotoRepository.cs:35-45 | The same for vehicles, matched on plate, chassis or engine number (a null field counts as empty), in descending id order. |
| Store.ListFiliais | VisionHive.Infrastructure/Repositories/FilialRepository.cs:22-66 | A page echoes the requested page and size. Its items are exactly the Skip/Take slice for that page of the ordered listing of matching branches, so at most pageSize of them. In a consistent store, the total is the number of matching branches and the page is ordered. |
| Store.ListPatios | VisionHive.Infrastructure/Repositories/PatioRepository.cs:22-62 | The same for the yard listing. |
| Store.ListMotos | VisionHive.Infrastructure/Repositories/MotoRepository.cs:22-64 | The same for the vehicle listing, in descending id order. |
| Store.PageSorted | VisionHive.Infrastructure/Repositories/FilialRepository.cs:53-56 | Any page of an ordered listing is ordered. |
| Store.FilialPagesCoverListing | VisionHive.Infrastructure/Repositories/IFilialRepository.cs:21-37 | Reading pages 1..TotalPages in turn gives every matching branch exactly once, in listing order. Every later page is empty. |
| Store.PatioPagesCoverListing | VisionHive.Infrastructure/Repositories/IPatioRepository.cs:20-31 | The same for yards. |
| Store.MotoPagesCoverListing | VisionHive.Infrastructure/Repositories/IMotoRepository.cs:19-27 | The same for vehicles. |
| Store.FilialListingCanonical | VisionHive.Infrastructure/Repositories/FilialRepository.cs:38-47 | The branch listing does not depend on the order the rows are enumerated in. |
| Store.PatioListingCanonical | VisionHive.Infrastructure/Repositories/PatioRepository.cs:35-44 | The yard listing does not depend on the order the rows are enumerated in. |
| Store.MotoListingCanonical | VisionHive.Infrastructure/Repositories/MotoRepository.cs:35-45 | The vehicle listing does not depend on the order the rows are enumerated in. |
| Store.SearchIgnoresSurroundingSpace | VisionHive.Infrastructure/Repositories/FilialRepository.cs:35-37 | White space around the search term never changes which branches, yards or vehicles are selected. |
| Pagination.CeilDiv | VisionHive.Domain/Pagination/PageResult.cs:27 | The result is the least n with n * b >= a. |
| Pagination.PageResult.TotalPages | VisionHive.Domain/Pagination/PageResult.cs:27 | The page count is the least number of pages of pageSize items that hold the total. |
| Pagination.HasNextIffItemsRemain | VisionHive.Domain/Pagination/PageResult.cs:21 | HasNext holds exactly when some item lies beyond the end of the current page. |
| Pagination.EmptyListing | VisionHive.Domain/Pagination/PageResult.cs:21-27 | With no items there are zero pages and no next page, and HasPrevious holds exactly off page 1. |
| Pagination.LastPageHasNoNext | VisionHive.Domain/Pagination/PageResult.cs:21-27 | Among pages 1..TotalPages, only the last one has no next page. |
| Pagination.Paginate | VisionHive.Infrastructure/Repositories/FilialRepository.cs:50-65 | The total counts all rows. The page length is the clipped remainder after skipping (page-1)*pageSize rows. The i-th item is the row at skip + i. |
| Pagination.PageWithinRows | VisionHive.Infrastructure/Repositories/FilialRepository.cs:53-56 | Every item of a page is one of the rows. |
| Pagination.PageIsSlice | VisionHive.Infrastructure/Repositories/FilialRepository.cs:53-56 | A page is the contiguous slice between its first index and the first index of the next page, clipped to the rows. |
| Pagination.FirstPagesArePrefix | VisionHive.Infrastructure/Repositories/FilialRepository.cs:53-56 | Pages 1..k concatenated are exactly the first min(k*pageSize, n) rows. |
| Pagination.PagesPartitionRows | VisionHive.Domain/Pagination/PageResult.cs:21-27 | Pages 1..TotalPages concatenated give back all rows. Every page past TotalPages is empty. |
| Pagination.RowOnItsPage | VisionHive.Infrastructure/Repositories/FilialRepository.cs:53-56 | Row i appears on page i / pageSize + 1, at position i % pageSize. |
| Pagination.NormalizePage | VisionHive.Application/UseCases/FilialUseCase.cs:18 | The normalised page is at least 1. A valid page is kept, and any page below 1 becomes 1. |
| Pagination.NormalizePageSize | VisionHive.Application/UseCases/FilialUseCase.cs:19 | The normalised size lies in 1..100. A size in range is kept; below 1 it becomes 10; above 100 it becomes 100. |
| Pagination.NormalizeIdempotent | VisionHive.Application/UseCases/PatioUseCase.cs:18-19 | Normalising twice gives the same result as normalising once. |
| UseCases.GetFiliais | VisionHive.Application/UseCases/FilialUseCase.cs:15-22 | The page returned is the requested page when it is at least 1, and page 1 otherwise. The size is normalised and bounds the items. The items are exactly that page's Skip/Take slice of the ordered listing of matching branches. In a consistent store, the total counts the matches and the page is ordered. |
| UseCases.GetPatios | VisionHive.Application/UseCases/PatioUseCase.cs:15-23 | The same for the yard use case: page below 1 gives page 1, and the items are that page's slice of the ordered yard listing. |
| UseCases.GetMotos | VisionHive.Application/UseCases/MotoUseCase.cs:15-23 | The same for the vehicle use case: page below 1 gives page 1, and the items are that page's slice of the ordered vehicle listing. |
| UseCases.OutOfRangeRequestsAreClamped | VisionHive.Application/UseCases/FilialUseCase.cs:18-19 | In all three listings, a page below 1 behaves as page 1, a size below 1 as 10, and a size above 100 as 100. |
| UseCases.DefaultRequestsGiveFirstPage | VisionHive.Application/DTO/Request/PatioPaginatedRequest.cs:13-19 | A request with no parameters lists the first page of ten, including for yards, whose page number defaults to 0. |
| UseCases.FilialInputError | VisionHive.Application/UseCases/FilialUseCase.cs:31-39 | The use case's own check fails exactly when the entity's would, on the same field, but as an ArgumentException. |
| UseCases.CreateFilial | VisionHive.Application/UseCases/FilialUseCase.cs:29-51 | An input error leaves the store untouched. Otherwise the built branch satisfies its invariant and is handed to Add. Creation succeeds exactly when the input is valid, the fresh id is unused, and the columns fit. The entity's own exception can never surface. The invariants are preserved. |
| UseCases.UpdateFilialUseCase | VisionHive.Application/UseCases/FilialUseCase.cs:53-78 | Input errors are raised before the lookup, even for an unknown id. An unknown id gives false and changes nothing. Otherwise exactly that row's text columns are replaced, or a persistence error leaves the store unchanged. Yards and vehicles are untouched. |
| UseCases.PatioInputError | VisionHive.Application/UseCases/PatioUseCase.cs:32-37 | The use case's check fails exactly when the entity's would, on the same field, as an ArgumentException. |
| UseCases.CreatePatio | VisionHive.Application/UseCases/PatioUseCase.cs:30-48 | Creation succeeds exactly when the input is valid, the id is fresh, the name fits, and the named branch exists. The branch is checked only by the store. The invariants are preserved. |
| UseCases.UpdatePatioUseCase | VisionHive.Application/UseCases/PatioUseCase.cs:50-71 | Input errors come first and an unknown id gives false. Otherwise only the name and capacity change. The branch given in the request is ignored, so a yard never changes branch. |
| UseCases.CreateMoto | VisionHive.Application/UseCases/MotoUseCase.cs:31-50 | Missing identifiers give an ArgumentException and change nothing. Creation succeeds exactly when some identifier is present, the id is fresh, the columns fit, and the yard exists. The invariants are preserved. |
| UseCases.UpdateMotoUseCase | VisionHive.Application/UseCases/MotoUseCase.cs:52-75 | The intended update. Missing identifiers give a plain Exception. An unknown id gives false. Otherwise every field but the id is replaced, including the yard, which must exist; a missing yard or an overlong column is a persistence error. Branches and yards are untouched. |
| UseCases.UpdateMotoAsWritten | VisionHive.Infrastructure/Repositories/MotoRepository.cs:66-84 | The update as the code runs it, with the vehicle loaded together with its yard. The same error cases. Otherwise exactly one row changes: vehicle id gets the requested identifiers and priority under its old yard, unless a column overflows, which is a persistence error that changes nothing. No vehicle ever changes yard, and the requested yard is never checked. Both consistency invariants are preserved. |
| UseCases.YardChangeLost | VisionHive.Application/UseCases/MotoUseCase.cs:61-74 | For a request naming a different yard: as written the vehicle stays put, as intended it moves there; for a missing yard, as written reports success where the intended update refuses it. |
| UseCases.MotoErrorKindsDiffer | VisionHive.Application/UseCases/MotoUseCase.cs:34-37 | The same missing identifiers are an ArgumentException on create but a plain Exception on update (MotoUseCase.cs:55-58). |
| UseCases.CreateMotoIgnoresCapacity | VisionHive.Domain/Entities/Patio.cs:35-38 | A consistent store holds a yard with capacity 1 and one vehicle, so PodeAdicionarMoto is false. The create use case still accepts a second vehicle there. |
| Requests.FilialRequestAcceptedIff | VisionHive.Application/DTO/Request/FilialRequest.cs:13-25 | Model validation accepts a request exactly when name and district are present and non-blank and the CNPJ has the 18-character punctuated layout. An accepted CNPJ is 18 UTF-16 code units long, so it fits the 20-character column. An accepted request also passes the entity's validation. |
| Requests.EntityAcceptsUnformattedCnpj | VisionHive.Domain/Entities/Filial.cs:42-45 | A CNPJ that the annotation rejects ("abc") is still accepted by the entity, which only checks for blanks. |
| Cnpj.FullMatchExpanded | VisionHive.Application/DTO/Request/FilialRequest.cs:24 | Matching a sequence of repeated character classes is the same as matching them spelled out one per character. |
| Cnpj.CnpjPatternIsShape | VisionHive.Application/DTO/Request/FilialRequest.cs:24 | A full match of the CNPJ expression holds exactly for 18 characters with '.' at 2 and 6, '/' at 10, '-' at 15, and digits elsewhere. |
| Cnpj.CnpjExpansionFrom | VisionHive.Application/DTO/Request/FilialRequest.cs:24 | Each suffix of the CNPJ expression spells out to the expected class at every remaining position. |
| Cnpj.DocumentedExampleAccepted | VisionHive.Application/DTO/Request/FilialRequest.cs:22-24 | The documented example 12.345.678/0001-99 matches and is 18 UTF-16 code units long. |
| Cnpj.ShapeLength | VisionHive.Infrastructure/Mappings/FilialMapping.cs:27-29 | A string with the CNPJ layout is 18 UTF-16 code units long, within the column's limit of 20. |
| Cnpj.CnpjFieldAccepted | VisionHive.Application/DTO/Request/FilialRequest.cs:23-24 | [Required] plus the expression accept a value exactly when it is present and has the CNPJ layout. |
| Cnpj.FormatThenDigits | VisionHive.Application/DTO/Request/FilialRequest.cs:24 | Laying out any 14 digits gives an accepted CNPJ, and stripping the separators gives the digits back. |
| Cnpj.DigitsThenFormat | VisionHive.Application/DTO/Request/FilialRequest.cs:24 | An accepted CNPJ has 18 characters. Its 14 extracted characters are digits, and laying them out again gives the original. |
| Text.TrimStart | VisionHive.Infrastructure/Repositories/FilialRepository.cs:37 | The result is a suffix of the input; what was dropped is blank; the result does not start with white space. |
| Text.TrimEnd | VisionHive.Infrastructure/Repositories/FilialRepository.cs:37 | The result is a prefix of the input; what was dropped is blank; the result does not end with white space. |
| Text.Trim | VisionHive.Infrastructure/Repositories/FilialRepository.cs:37 | The input is the result padded on both sides with blanks, and the result starts right after the leading blanks. The result is empty exactly for blank input; otherwise it starts and ends with non-white-space. |
| Text.TrimPadded | VisionHive.Infrastructure/Repositories/PatioRepository.cs:35-37 | Adding blanks around a string changes neither whether it is blank nor its trimmed form. |
| Text.TrimUnpadded | VisionHive.Infrastructure/Repositories/FilialRepository.cs:37 | A string that neither starts nor ends with white space trims to itself. |
| Text.TrimIdempotent | VisionHive.Infrastructure/Repositories/FilialRepository.cs:37 | Trimming twice is trimming once. |
| Text.TrimStartPadded | VisionHive.Infrastructure/Repositories/FilialRepository.cs:37 | Leading blanks do not affect TrimStart. |
| Text.TrimEndPadded | VisionHive.Infrastructure/Repositories/FilialRepository.cs:37 | Trailing blanks do not affect TrimEnd. |
| Text.TrimStartAppend | VisionHive.Infrastructure/Repositories/FilialRepository.cs:37 | For a non-blank string, TrimStart commutes with appending. |
| Text.ContainsSelf | VisionHive.Infrastructure/Repositories/FilialRepository.cs:38-41 | Every field contains itself, so searching for a full value finds its row. |
| Text.CodeUnitsInjective | VisionHive.Infrastructure/Mappings/FilialMapping.cs:17-19 | Different characters have different UTF-16 code units. |
| Text.Utf16LengthFacts | VisionHive.Infrastructure/Mappings/FilialMapping.cs:17-19 | The length that a column limit counts is the number of UTF-16 code units of the encoding, at most two per character. It equals the number of characters when every character lies in the Basic Multilingual Plane. |
| Text.Utf16Injective | VisionHive.Infrastructure/Repositories/FilialRepository.cs:46 | Different strings have different UTF-16 encodings. |
| Text.UnitsLessIrreflexive | VisionHive.Infrastructure/Repositories/FilialRepository.cs:46 | No code-unit sequence sorts before itself. |
| Text.UnitsLessTransitive | VisionHive.Infrastructure/Repositories/FilialRepository.cs:46 | Lexicographic code-unit order is transitive. |
| Text.UnitsLessTotal | VisionHive.Infrastructure/Repositories/FilialRepository.cs:46 | Any two different code-unit sequences are ordered one way or the other. |
| Text.LessIrreflexive | VisionHive.Infrastructure/Repositories/FilialRepository.cs:46 | No name sorts before itself under ordinal UTF-16 order. |
| Text.LessTransitive | VisionHive.Infrastructure/Repositories/FilialRepository.cs:46 | The name order is transitive. |
| Text.LessTotal | VisionHive.Infrastructure/Repositories/FilialRepository.cs:46 | Any two different names are ordered one way or the other. |
| Text.SupplementarySortsBeforePrivateUse | VisionHive.Infrastructure/Repositories/FilialRepository.cs:46 | Ordinal order is not code-point order: U+10000 sorts before U+E000, although its code point is larger. |
| Sequences.Filter | VisionHive.Infrastructure/Repositories/FilialRepository.cs:38-41 | Where keeps exactly the elements satisfying the predicate, with their multiplicities. A duplicate-free input gives a duplicate-free output. |
| Sequences.FilterSameMultiset | VisionHive.Infrastructure/Repositories/FilialRepository.cs:38-41 | Filtering two arrangements of the same rows gives two arrangements of the same rows. |
| Sequences.DistinctCard | VisionHive.Infrastructure/Repositories/FilialRepository.cs:50 | A duplicate-free sequence is as long as its set of elements. |
| Sequences.DistinctListingCard | VisionHive.Infrastructure/Repositories/FilialRepository.cs:50 | A duplicate-free listing of the set S has exactly |S| entries, which is why the count equals the number of matching rows. |
| Sequences.MinExists | VisionHive.Infrastructure/Repositories/FilialRepository.cs:30-32 | Every non-empty set of ids has a least element. |
| Sequences.MinOf | VisionHive.Infrastructure/Repositories/FilialRepository.cs:30-32 | The result is in the set and is no greater than any member. |
| Sequences.KeysAscending | VisionHive.Infrastructure/Repositories/FilialRepository.cs:30-32 | Lists exactly the keys, strictly increasing, one entry per key. |
| Sequences.Rows | VisionHive.Infrastructure/Repositories/FilialRepository.cs:30-32 | Enumerates a table with one entry per key and exactly its stored values. Injectively stored rows give no duplicates. |
| Sequences.DistinctCount | VisionHive.Infrastructure/Repositories/FilialRepository.cs:30-32 | In a duplicate-free sequence every value occurs at most once. |
| Sorting.Insert | VisionHive.Infrastructure/Repositories/FilialRepository.cs:45-47 | Insertion adds exactly the one element. |
| Sorting.Sort | VisionHive.Infrastructure/Repositories/FilialRepository.cs:45-47 | Sorting is a permutation of its input. |
| Sorting.InsertSorted | VisionHive.Infrastructure/Repositories/FilialRepository.cs:45-47 | Inserting an element that is comparable with, and absent from, a sorted sequence keeps it sorted. |
| Sorting.SortSorted | VisionHive.Infrastructure/Repositories/FilialRepository.cs:45-47 | Sorting a duplicate-free sequence that is totally ordered by a transitive relation gives a sorted result. |
| Sorting.SortedDistinct | VisionHive.Infrastructure/Repositories/FilialRepository.cs:45-47 | A sequence strictly sorted by an irreflexive order has no duplicates. |
| Sorting.HeadLeast | VisionHive.Infrastructure/Repositories/FilialRepository.cs:45-47 | The head of a sorted sequence is at or before every element. |
| Sorting.SortedUnique | VisionHive.Infrastructure/Repositories/FilialRepository.cs:45-47 | Two sequences sorted by the same strict order with the same elements are equal. |
| Sorting.SortCanonical | VisionHive.Infrastructure/Repositories/FilialRepository.cs:45-47 | Under a strict total order, sorting any two arrangements of the same elements gives the same result. |
| Sorting.SortSameElements | VisionHive.Infrastructure/Repositories/FilialRepository.cs:45-47 | Sorting keeps exactly the same elements. |
| Scenario.CreateBranch | VisionHive.Application/UseCases/FilialUseCase.cs:29-51 | Creating the sample branch in an empty store succeeds and stores exactly it. |
| Scenario.CreateYard | VisionHive.Application/UseCases/PatioUseCase.cs:30-48 | Creating a yard under that branch succeeds. |
| Scenario.CreateVehicles | VisionHive.Application/UseCases/MotoUseCase.cs:31-50 | Two vehicles, one identified by plate only and one by chassis only, are both accepted into the yard. |
| Scenario.ScenarioCreates | VisionHive.Application/UseCases/MotoUseCase.cs:31-50 | The four creations chain successfully, and the final store satisfies the schema and entity invariants. |
| Scenario.YardMatches | VisionHive.Infrastructure/Repositories/PatioRepository.cs:35-39 | Searching "Yard 1" selects exactly the yard. |
| Scenario.YardListed | VisionHive.Infrastructure/Repositories/PatioRepository.cs:35-44 | The ordered result of that search is the yard alone. |
| Scenario.ScenarioFindsYard | VisionHive.Application/UseCases/PatioUseCase.cs:15-23 | The listing request returns the yard on a single page with total 1, one page, and no next or previous page. |
| Scenario.ScenarioCascade | VisionHive.Infrastructure/Mappings/PatioMapping.cs:21-29 | Deleting the branch returns true and empties the whole store: the yard and both vehicles go with it. |

## Findings

| source | as written | input that shows it | evidently intended | confidence | as-written member | corrected member |
|---|---|---|---|---|---|---|
| VisionHive.Infrastructure/Repositories/MotoRepository.cs:69-79 | `GetByIdAsync` loads the vehicle with `Include(m => m.Patio)`; `AtualizarDados` sets `PatioId` but leaves the `Patio` navigation on the old yard; `Attach` takes the foreign key from that navigation, so the old yard is saved | vehicle 3 in yard 2, update request with the same identifiers naming another yard 5 (or a missing yard 9): the row stays in yard 2 and the call returns true | the vehicle moves to yard 5, and a missing yard is refused by the foreign key | medium; not executed, relies on EF Core's fix-up of attached navigations | UseCases.UpdateMotoAsWritten, UseCases.YardChangeLost | UseCases.UpdateMotoUseCase |

## Left out

- Asynchrony, `CancellationToken`s, `AsNoTracking` and EF change tracking are left out. Every repository call is a single atomic step on the store.
- `Include` (eager loading of `Filial.Patios` and `Patio.Motos`) is left out. The navigation collections are the rows pointing back (`Store.PatiosOf`, `Store.MotosOf`), not loaded copies.
- `Guid` identities are modelled as natural numbers. `Guid.NewGuid` becomes a fresh id passed in by the caller. The order of ids in `ThenBy(Id)` and `OrderByDescending(Id)` is the order of those numbers, not the database's ordering of raw GUID bytes.
- `Store.UpdateFilial`, `Store.UpdatePatio` and `Store.UpdateMoto`: an unknown id returns false, as the interfaces document. With EF, `Update` of a detached entity that is not in the table makes `SaveChanges` throw a concurrency exception instead. The use cases never reach that path, because they look the row up first.
- Oracle stores an empty string as NULL; the model keeps "" as a value. Every required text column is non-blank anyway because of entity validation.
- `Text.Contains` compares characters, not UTF-16 code units. For strings without unpaired surrogates, which Dafny strings cannot hold, the two agree: a match can neither start on a low surrogate nor end on a high one.
- The search and sort are modelled as ordinal. `Contains` and `OrderBy(Nome)` run in the database with its collation, which may ignore case or accents.
- `Pagination.PageResult.TotalPages` uses exact integer ceiling. The source computes `Math.Ceiling((double)Total / PageSize)` and casts it to `int`. These agree for any realistic total; double rounding and the `int` cast for totals beyond 2^53 are not modelled.
- `Pagination.Paginate` does not model the 32-bit overflow of `(page - 1) * pageSize` in `Skip`. The computation is exact. Huge page numbers therefore give an empty page here, where the source could wrap.
- `PageResult.Items` defaulting to an empty array (PageResult.cs:9) is not modelled. The repositories always set it.
- `SortBy` and `SortDir` in the paginated requests are never read by the code, so they carry no meaning in the model.
- The `Prioridade` enumeration's declaration is not part of this model; the priority is an integer code that nothing validates.
- `\d` in the CNPJ expression is taken to be an ASCII digit. .NET's `\d` also matches other Unicode decimal digits.
- The annotations on `PatioRequest` and `MotoRequest` are not part of this model. Only `FilialRequest`'s rules are.
- The GetById and Delete use cases forward to the repository unchanged. `Store.Find*` and `Store.Delete*` stand for both layers.
- UseCases.UpdateMotoUseCase: models the intended move to the requested yard. The code as written reloads the vehicle with a stale `Patio` navigation, so the yard change may be lost and a missing yard goes unnoticed; `UseCases.UpdateMotoAsWritten` models that reading (see Findings).
- `Patio.PodeAdicionarMoto` is modelled as `Store.PodeAdicionarMoto`, but nothing in the application calls it. The capacity is therefore advisory, as `UseCases.CreateMotoIgnoresCapacity` shows, and no operation enforces it.
- The Moto foreign key has no explicit delete behaviour in MotoMapping. The model follows PatioMapping's explicit cascade for the same relationship.
- Controllers, dependency injection, migrations, `VisionHiveContext`, response DTOs, Swagger examples and `Audit.cs` are outside the core and are left out.
