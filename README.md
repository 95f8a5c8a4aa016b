# Module grades: validation, module record and module table

A Dafny model of the data and validation layer of a small Android app that
tracks school module grades. A module has a number (the primary key), a
title and two optional grades: the ZP grade (interim exam) and the LB grade
(performance assessment). Its average is derived from the two grades. The
model covers three parts of the app:

- `ViewModel.ValidateModule` is the form check `validateModule`. It runs four
  checks in a fixed order: the module number, then the title, then the ZP
  grade, then the LB grade. The first failure is reported as one of six
  errors (`ValidationError`; `Message` gives the German text the app shows).
  A Java `null` is `None`.
- `Model.Module` is the entity class, with its four setters and the
  `AverageGrade` / `HasAllGrades` observers. Grades are `Option<real>`.
  `Model.ModuleRecord` is the value of one table row.
- `Data.ModuleDao` is the `modules` table, a `map` from module number to row.
  Its `Insert` (upsert on conflict), `Update` and `Delete` methods change the
  map in place. Each is specified by a pure function on maps: `Upsert`,
  `UpdateExisting`, `Remove`. `GetAllModules` and `GetModuleByNumber` are the
  two queries. Storing a `Module` writes a copy of its fields
  (`Module.Record()`), as Room does, so later setter calls on the object do
  not change the table.

Supporting modules:

- `Text.Trim` is Java's `String.trim()`. It strips characters at or below
  U+0020 from both ends.
- `Decimal.ParseGrade` stands for `Float.parseFloat`. It is a plain decimal
  reader: it trims the text, accepts an optional sign, then digits with at
  most one point, and needs at least one digit. `Decimal.FormatTenths` is
  its round-trip partner.
- `LexOrder` is the order of `ORDER BY moduleNumber ASC` under SQLite's
  default BINARY collation. That collation compares UTF-8 bytes, which is
  the same as comparing code points lexicographically, with a proper prefix
  first. So "M10" sorts before "M9".

The edit screen does not let the module number change once a module exists,
but the entity class still has `setModuleNumber`. The model follows the
class (`Model.Module.SetModuleNumber`).

## Model

Source paths are relative to the repository root.

| member | source | states |
|---|---|---|
| Text.Trim | Abschlussprojekt-M335/M335-2/app/src/main/java/com/example/m335/viewmodel/ModuleViewModel.java:90 | The result is the contiguous middle of the input. Everything before and after it is white space (code ≤ U+0020). The result neither starts nor ends with white space. |
| Text.TrimUnpadded | Abschlussprojekt-M335/M335-2/app/src/main/java/com/example/m335/viewmodel/ModuleViewModel.java:90 | A string without outer white space is unchanged by trimming. |
| Text.TrimIdempotent | Abschlussprojekt-M335/M335-2/app/src/main/java/com/example/m335/viewmodel/ModuleViewModel.java:94 | Trimming twice gives the same result as trimming once. |
| Text.TrimKeeps | Abschlussprojekt-M335/M335-2/app/src/main/java/com/example/m335/viewmodel/ModuleViewModel.java:90 | Every character that is not white space survives trimming, at its shifted position. |
| Decimal.ParseGrade | Abschlussprojekt-M335/M335-2/app/src/main/java/com/example/m335/viewmodel/ModuleViewModel.java:101 | Text that is blank once trimmed never parses, so it raises the format error. |
| Decimal.ParseGradeIgnoresPadding | Abschlussprojekt-M335/M335-2/app/src/main/java/com/example/m335/viewmodel/ModuleViewModel.java:101 | Surrounding white space does not change the parsed value. |
| Decimal.FormatTenthsRoundTrip | Abschlussprojekt-M335/M335-2/app/src/main/java/com/example/m335/viewmodel/ModuleViewModel.java:101-104 | Any number of tenths, written as "I.D", parses back to exactly that value. |
| Decimal.UnsignedOfPointed | Abschlussprojekt-M335/M335-2/app/src/main/java/com/example/m335/viewmodel/ModuleViewModel.java:101 | Digits, a point and one digit read as the whole part plus that many tenths. |
| Decimal.UnsignedOfDecimal | Abschlussprojekt-M335/M335-2/app/src/main/java/com/example/m335/viewmodel/ModuleViewModel.java:101 | Digits, a point and digits, with at least one digit in all, read as the whole part plus the fraction ("4.75" is 4 + 0.75). |
| Decimal.UnsignedOfInteger | Abschlussprojekt-M335/M335-2/app/src/main/java/com/example/m335/viewmodel/ModuleViewModel.java:101 | A non-empty run of digits reads as the whole number it denotes. |
| Decimal.PointedDecimalParses | Abschlussprojekt-M335/M335-2/app/src/main/java/com/example/m335/viewmodel/ModuleViewModel.java:101 | Every text made of an optional sign, digits, a point and digits (at least one digit) is accepted. Its value is the signed whole part plus fraction ("+5.0", "-1.", ".5", "4.75"). |
| Decimal.IntegerParses | Abschlussprojekt-M335/M335-2/app/src/main/java/com/example/m335/viewmodel/ModuleViewModel.java:101 | Every whole-number text with an optional sign is accepted, with its exact value ("5", "+6", "-1"). |
| Decimal.ParsedIsWellFormed | Abschlussprojekt-M335/M335-2/app/src/main/java/com/example/m335/viewmodel/ModuleViewModel.java:101-107 | Only well-formed numbers are accepted: a text that parses is, once trimmed, an optional sign, then digits, optionally a point and digits, with at least one digit in all. So "1.2.3", "5-", "+-5", "+" and "." give the format error. |
| Decimal.NonNumericRejected | Abschlussprojekt-M335/M335-2/app/src/main/java/com/example/m335/viewmodel/ModuleViewModel.java:105-107 | One character that is not a digit, point, sign or white space makes the text unparseable. |
| Decimal.UnsignedRejects | Abschlussprojekt-M335/M335-2/app/src/main/java/com/example/m335/viewmodel/ModuleViewModel.java:105-107 | An unsigned numeral containing a character other than a digit or point does not parse. |
| Decimal.NatToStringRoundTrip | Abschlussprojekt-M335/M335-2/app/src/main/java/com/example/m335/viewmodel/ModuleViewModel.java:101 | The digits of a natural number read back as that number. |
| Decimal.TenthsText | Abschlussprojekt-M335/M335-2/app/src/test/java/com/example/m335/ModuleUnitTest.java:88-91 | A three-character "d.d" text parses to its value in tenths. |
| Decimal.GradeTextExamples | Abschlussprojekt-M335/M335-2/app/src/test/java/com/example/m335/ModuleUnitTest.java:88-100 | "4.5", "7.0" and "0.5" parse to exactly 4.5, 7.0 and 0.5. "abc" does not parse. |
| ViewModel.CheckGrade | Abschlussprojekt-M335/M335-2/app/src/main/java/com/example/m335/viewmodel/ModuleViewModel.java:99-108 | A grade field passes exactly when it is null, empty, or a number in [1.0, 6.0]. Unparseable text gives the field's format error. A parsed value out of range gives its range error. |
| ViewModel.ValidateModule | Abschlussprojekt-M335/M335-2/app/src/main/java/com/example/m335/viewmodel/ModuleViewModel.java:87-122 | No error exactly when all four checks pass. Each of the six errors is characterised as an if-and-only-if. A short or null number gives the number error whatever the other fields hold. The title error needs a valid number. The ZP errors need a valid number and title. The LB errors also need an accepted ZP grade. |
| ViewModel.FirstFailureWins | Abschlussprojekt-M335/M335-2/app/src/main/java/com/example/m335/viewmodel/ModuleViewModel.java:90-119 | Once a check fails, changing the fields that later checks look at does not change the result. |
| ViewModel.GradeBounds | Abschlussprojekt-M335/M335-2/app/src/main/java/com/example/m335/viewmodel/ModuleViewModel.java:101-104 | The bounds "1.0" and "6.0" are accepted. "0.9" and "6.1" are rejected. |
| ViewModel.TenthsGradeAccepted | Abschlussprojekt-M335/M335-2/app/src/main/java/com/example/m335/viewmodel/ModuleViewModel.java:101-104 | A "d.d" grade text passes exactly when its value lies between 1.0 and 6.0. |
| ViewModel.TenthsAcceptedIffInRange | Abschlussprojekt-M335/M335-2/app/src/main/java/com/example/m335/viewmodel/ModuleViewModel.java:101-104 | A grade written with one decimal place is accepted exactly when it lies in [1.0, 6.0]. |
| ViewModel.LetterGradeRejected | Abschlussprojekt-M335/M335-2/app/src/main/java/com/example/m335/viewmodel/ModuleViewModel.java:99-119 | A grade text with a letter in it gives the ZP (or LB) "valid number" error, provided number and title are valid. |
| ViewModel.ModuleNumberExamples | Abschlussprojekt-M335/M335-2/app/src/test/java/com/example/m335/ModuleUnitTest.java:43-51 | "M12" gives the number error. "M123" with a title and no grades (null or empty) passes. All-null input gives the number error. |
| ViewModel.Message | Abschlussprojekt-M335/M335-2/app/src/main/java/com/example/m335/viewmodel/ModuleViewModel.java:90-118 | The message of each failure opens with the name of the field it is about ("Modulnummer", "Modultitel", "ZP-Note", "LB-Note"). |
| ViewModel.MessageNamesOneField | Abschlussprojekt-M335/M335-2/app/src/main/java/com/example/m335/viewmodel/ModuleViewModel.java:90-118 | No other field's name opens a message, so each message names exactly one field. |
| ViewModel.MessagesDistinct | Abschlussprojekt-M335/M335-2/app/src/main/java/com/example/m335/viewmodel/ModuleViewModel.java:90-118 | Different failures give different messages. |
| Model.Average | Abschlussprojekt-M335/M335-2/app/src/main/java/com/example/m335/model/Module.java:114-119 | The average is present exactly when both grades are. It is then their midpoint: equally far from each, and between them. |
| Model.AverageOfValidGrades | Abschlussprojekt-M335/M335-2/app/src/main/java/com/example/m335/model/Module.java:114-117 | Two grades in [1.0, 6.0] have an average in [1.0, 6.0]. |
| Model.AverageExamples | Abschlussprojekt-M335/M335-2/app/src/test/java/com/example/m335/ModuleUnitTest.java:31-74 | 5.0 and 5.5 average to 5.25. 4.5 and 5.0 average to 4.75. No grades give no average. |
| Model.Module.constructor | Abschlussprojekt-M335/M335-2/app/src/main/java/com/example/m335/model/Module.java:30-33 | A new module has the given number and title and no grades. |
| Model.Module.SetModuleNumber | Abschlussprojekt-M335/M335-2/app/src/main/java/com/example/m335/model/Module.java:50-52 | Sets the number. The title and both grades are unchanged. |
| Model.Module.SetModuleTitle | Abschlussprojekt-M335/M335-2/app/src/main/java/com/example/m335/model/Module.java:69-71 | Sets the title. The number and both grades are unchanged. |
| Model.Module.SetZpNote | Abschlussprojekt-M335/M335-2/app/src/main/java/com/example/m335/model/Module.java:87-89 | Sets the ZP grade. The number, title and LB grade are unchanged. |
| Model.Module.SetLbNote | Abschlussprojekt-M335/M335-2/app/src/main/java/com/example/m335/model/Module.java:105-107 | Sets the LB grade. The number, title and ZP grade are unchanged. |
| Model.Module.AverageGrade | Abschlussprojekt-M335/M335-2/app/src/main/java/com/example/m335/model/Module.java:114-128 | The average is present exactly when `HasAllGrades()` holds, and it is then the midpoint of the two grades. |
| Model.Module.HasAllGrades | Abschlussprojekt-M335/M335-2/app/src/main/java/com/example/m335/model/Module.java:126-128 | Holds exactly when both grades are set, which is exactly when the module has an average. |
| Model.Module.Record | Abschlussprojekt-M335/M335-2/app/src/main/java/com/example/m335/model/Module.java:14-33 | The stored row carries the module's number (its primary key) and gives the same average as the module. |
| Model.GradeUpdateScenario | Abschlussprojekt-M335/M335-2/app/src/test/java/com/example/m335/ModuleUnitTest.java:59-76 | A new module has no average and does not have all grades. After setting 4.5 and 5.0 its average is 4.75 and it has all grades. |
| LexOrder.LessIrreflexive | Abschlussprojekt-M335/M335-2/app/src/main/java/com/example/m335/data/ModuleDao.java:51-52 | No number sorts before itself. |
| LexOrder.LessAsymmetric | Abschlussprojekt-M335/M335-2/app/src/main/java/com/example/m335/data/ModuleDao.java:51-52 | Two numbers are never each before the other. |
| LexOrder.LessTransitive | Abschlussprojekt-M335/M335-2/app/src/main/java/com/example/m335/data/ModuleDao.java:51-52 | The text order is transitive. |
| LexOrder.LessTotal | Abschlussprojekt-M335/M335-2/app/src/main/java/com/example/m335/data/ModuleDao.java:51-52 | Any two different numbers are ordered one way or the other. |
| LexOrder.TextNotNumericOrder | Abschlussprojekt-M335/M335-2/app/src/main/java/com/example/m335/data/ModuleDao.java:51 | "M10" sorts before "M9", and "M106" < "M223" < "M335". |
| LexOrder.Less | Abschlussprojekt-M335/M335-2/app/src/main/java/com/example/m335/data/ModuleDao.java:51 | A number never sorts before itself, and a proper prefix sorts before every extension of it. |
| LexOrder.LeastExists | Abschlussprojekt-M335/M335-2/app/src/main/java/com/example/m335/data/ModuleDao.java:51-52 | Every non-empty set of numbers has a least element. |
| LexOrder.LeastUnique | Abschlussprojekt-M335/M335-2/app/src/main/java/com/example/m335/data/ModuleDao.java:51-52 | That least element is unique. |
| LexOrder.Least | Abschlussprojekt-M335/M335-2/app/src/main/java/com/example/m335/data/ModuleDao.java:51-52 | Returns the element of a non-empty key set that sorts before all the others. |
| LexOrder.SortedKeys | Abschlussprojekt-M335/M335-2/app/src/main/java/com/example/m335/data/ModuleDao.java:51-52 | Lists exactly the given keys, each once, in strictly ascending text order. |
| LexOrder.SortedKeysUnique | Abschlussprojekt-M335/M335-2/app/src/main/java/com/example/m335/data/ModuleDao.java:51-52 | Any strictly ascending sequence of exactly those keys equals `SortedKeys`. |
| Data.Upsert | Abschlussprojekt-M335/M335-2/app/src/main/java/com/example/m335/data/ModuleDao.java:27-28 | The new row is stored under its number. The key set grows by that number only. Every other row is unchanged. The primary-key invariant is kept. |
| Data.UpdateExisting | Abschlussprojekt-M335/M335-2/app/src/main/java/com/example/m335/data/ModuleDao.java:35-36 | The key set is unchanged. An existing row with the number is replaced, and the others are unchanged. With an absent number the table is unchanged. |
| Data.Remove | Abschlussprojekt-M335/M335-2/app/src/main/java/com/example/m335/data/ModuleDao.java:43-44 | Exactly the given number leaves the key set. The remaining rows are unchanged. An absent number changes nothing. |
| Data.Lookup | Abschlussprojekt-M335/M335-2/app/src/main/java/com/example/m335/data/ModuleDao.java:60-61 | A row is present exactly when the number is a key. It is then the stored row, and it carries that number. |
| Data.Listing | Abschlussprojekt-M335/M335-2/app/src/main/java/com/example/m335/data/ModuleDao.java:51-52 | As many rows as the table has. Strictly ascending by module number. Every listed row is the stored row for its number, and every stored row is listed. |
| Data.RowsAtCover | Abschlussprojekt-M335/M335-2/app/src/main/java/com/example/m335/data/ModuleDao.java:51-52 | When the keys cover the table, every stored row appears among them. |
| Data.ListingKeysDistinct | Abschlussprojekt-M335/M335-2/app/src/main/java/com/example/m335/model/Module.java:14-16 | No two listed rows share a module number. |
| Data.ListingUnique | Abschlussprojekt-M335/M335-2/app/src/main/java/com/example/m335/data/ModuleDao.java:51-52 | Any strictly ascending sequence holding exactly the table's rows is the listing. |
| Data.LookupAgreesWithListing | Abschlussprojekt-M335/M335-2/app/src/main/java/com/example/m335/data/ModuleDao.java:51-61 | Lookup by number finds a row exactly when the listing contains it under that number. |
| Data.UpsertLastWriteWins | Abschlussprojekt-M335/M335-2/app/src/main/java/com/example/m335/data/ModuleDao.java:27-28 | Two inserts with the same number leave the same table as the second insert alone. |
| Data.ListingAfterUpsert | Abschlussprojekt-M335/M335-2/app/src/main/java/com/example/m335/data/ModuleDao.java:27-52 | After an insert the listing contains the new row. It grows by one exactly when the number was new. |
| Data.InsertThenUpdateStory | Abschlussprojekt-M335/M335-2/app/src/main/java/com/example/m335/data/ModuleDao.java:27-52 | Insert ("M123", "Title") without grades into an empty table: the listing is that one row, with no average. Update it with 5.0 and 5.5: the listing is the one updated row, with average 5.25. |
| Data.ModuleDao.Insert | Abschlussprojekt-M335/M335-2/app/src/main/java/com/example/m335/data/ModuleDao.java:27-28 | The new table is `Upsert` of the old one with the module's current field values. The primary-key invariant is kept. |
| Data.ModuleDao.Update | Abschlussprojekt-M335/M335-2/app/src/main/java/com/example/m335/data/ModuleDao.java:35-36 | The new table is `UpdateExisting` of the old one with the module's values. |
| Data.ModuleDao.Delete | Abschlussprojekt-M335/M335-2/app/src/main/java/com/example/m335/data/ModuleDao.java:43-44 | The new table is the old one without the module's number. |
| Data.ModuleDao.GetAllModules | Abschlussprojekt-M335/M335-2/app/src/main/java/com/example/m335/data/ModuleDao.java:51-52 | Every stored row exactly once, in strictly ascending module-number order. |
| Data.ModuleDao.GetModuleByNumber | Abschlussprojekt-M335/M335-2/app/src/main/java/com/example/m335/data/ModuleDao.java:60-61 | The row stored under the number, or `None` when there is none. The row found carries that number. |
| Data.UpsertTwiceScenario | Abschlussprojekt-M335/M335-2/app/src/main/java/com/example/m335/data/ModuleDao.java:27-28 | Inserting "M335" twice, with the title changed in between, leaves one row holding the latest title. |

## Left out

- Decimal.ParseGrade: covers only plain decimals. `Float.parseFloat` also accepts exponents ("1e0"), the suffixes f/F/d/D, hexadecimal floats, "Infinity" and "NaN"; the model rejects these with the format error. The source accepts "NaN" as a grade, because both range comparisons are false for NaN. This is not modelled.
- Decimal.ParseGrade: computes exact values, with no rounding to `float`. A text such as "6.00000001" rounds to 6.0f and passes the source's range check. The model rejects it.
- Model.Average: exact real arithmetic. `(zp + lb) / 2.0f` in `float` may round. For the grades in the unit tests the two results agree.
- ViewModel.LongEnough: counts Dafny characters (code points). Java's `length()` counts UTF-16 code units, so a character outside the Basic Multilingual Plane counts twice there.
- The getters of `Module` are direct field reads in the model. Each setter's contract says the field then holds the value set.
- The forwarding methods of the view model (`insert`, `update`, `delete`, `getAllModules`, `getModuleByNumber`) are not modelled separately. They call the table operations modelled here.
- `ModuleRepository.java` is not part of this model. It dispatches writes to a background thread (`AsyncTask`). The order of two concurrent writes is not modelled: every write is one atomic step.
- `ModuleDatabase.java` is not part of this model (a lazily built singleton database). The model's `ModuleDao` constructor simply starts from an empty table.
- LiveData observation and re-emission are not modelled. `GetAllModules` and `GetModuleByNumber` return the snapshot that a query would deliver.
- Data.ModuleDao.GetAllModules: kept ghost (specification-only), like `LexOrder.Least` and `LexOrder.SortedKeys` that it is built on. The model is a specification and is not compiled.
- Storage failures in the database engine are not modelled: every operation succeeds.
- The activities and the list adapter (`MainActivity.java`, `ModuleEditActivity.java`, `ModuleAdapter.java`) are user interface and are not part of this model. This includes how an error is routed to an input field by matching a substring of its message.
