# Module 3 Python exercises: a Dafny model

The repository is a set of fifteen small Python console exercises for a course module on
functions, scope, closures, functional programming, recursion and files. Each exercise pairs
a few pure or state-changing functions with a Rich text menu. This project models those
functions, leaves the menus out, and proves what their docstrings and tests promise.

One Dafny module per exercise:

- **Bmi** (`ejercicio_1`): `calcular_imc` and `interpretar_imc`, with the thresholds 18.5, 25 and 30.
- **Profiles** (`ejercicio_2`): validates name and age, cleans hobbies and social handles, formats the
  five-line profile, and parses the menu's hobby and `k=v` text.
- **Counters** (`ejercicio_3`): the closure counter as a `Counter` class, and the menu's list of
  counters with its mirror list of values as a `Board` class.
- **Validators** (`ejercicio_4`): `aplicar_validador`, the e-mail and "greater than 10" validators,
  and the CSV parsers.
- **Tax** (`ejercicio_5`): the global `TASA_IVA` as a `Calculator` class with `calcular_iva` and
  `actualizar_tasa_iva`.
- **Discounts** (`ejercicio_6`), **Grades** (`ejercicio_7`), **Words** (`ejercicio_8`),
  **Reduce** (`ejercicio_9`) and **Explorer** (`ejercicio_10`): the `map`, `filter`,
  comprehension, `reduce` and recursion exercises, and their text parsers.
- **Tasks** (`ejercicio_11`), **Inventory** (`ejercicio_13`) and **Library** (`ejercicio_15`): the file-backed
  stores. Each is a class holding the in-memory list and an abstract file snapshot.
  - Each method is proved against a pure transition function.
  - The lemmas state what the transition preserves: validity, save-then-load, and borrow-then-return.
- **Reports** (`ejercicio_14`): reads the students CSV and the course catalogue JSON after decoding,
  and generates the text report.

The shared modules are:

- **Wrappers**: Option and Result. A raised exception is an `Err` carrying its kind.
- **PyValues**: a dynamically typed Python value. It also holds the exception kinds and the parts of
  `float()`, `int()` and `str()` that are left abstract.
- **Seqs**: `filter`, comprehensions, `join`, and insertion-ordered dicts.
- **Text**: `strip`, `split`, `" ".join(s.split())`, `lower`/`upper` and reading lines.

The `bloque1` and `modulo3` copies of exercises 1, 2 and 4 have the same logic. Each is modelled
once, and the rows below cite the `bloque1` copy and name the `modulo3` lines.

## Model

| member | source | states |
|---|---|---|
| Inventory.NormalizeName | src/bloque3/ejercicio_13_gestor_inventario_json.py:83-98 | the name is accepted exactly when it is not all whitespace, and the result is then `" ".join(name.split())` (Text.Collapse), which is non-empty and canonical; a blank name raises ValueError |
| Inventory.NormalizeNameIdempotent | src/bloque3/ejercicio_13_gestor_inventario_json.py:95-98 | normalising an already normalised name changes nothing |
| Inventory.ValidateProduct | src/bloque3/ejercicio_13_gestor_inventario_json.py:119-140 | a non-dict raises TypeError; the first missing key of "nombre", "precio", "stock" raises TypeError naming it; with all three present, a blank name raises ValueError, then a price float() rejects raises TypeError, then a stock int() rejects raises TypeError, then a negative price and then a negative stock raise ValueError; otherwise the record is the collapsed name with the converted price and stock, and it is valid; no failure is a KeyError |
| Inventory.NormalizeRecord | src/bloque3/ejercicio_13_gestor_inventario_json.py:125-140 | for a record held in memory, validation succeeds exactly when the name is not blank and price and stock are both >= 0; price and stock are kept, a record that is already valid comes back unchanged, and every rejection is a ValueError |
| Inventory.ValidateEncoded | src/bloque3/ejercicio_13_gestor_inventario_json.py:199-203 | the JSON object written for a product validates, whatever the number parsers, to exactly what normalising the record in memory gives |
| Inventory.LoadSpec | src/bloque3/ejercicio_13_gestor_inventario_json.py:154-175 | every loaded product is valid; a missing file, undecodable JSON or a top level that is not a list gives [] |
| Inventory.LoadInventory | src/bloque3/ejercicio_13_gestor_inventario_json.py:168-175 | the loading loop keeps exactly the entries that validate, normalised, in their original order |
| Inventory.SaveThenLoad | src/bloque3/ejercicio_13_gestor_inventario_json.py:196-203 | saving a valid inventory always succeeds, and loading the written file gives back the same list |
| Inventory.SaveRejectsInvalid | src/bloque3/ejercicio_13_gestor_inventario_json.py:199 | one record with a blank name or a negative number makes the save raise ValueError |
| Inventory.IndexOfName | src/bloque3/ejercicio_13_gestor_inventario_json.py:220-223 | a found index is the first whose lower-cased name equals the key; nothing is found exactly when no name matches |
| Inventory.FindIndex | src/bloque3/ejercicio_13_gestor_inventario_json.py:206-223 | the search loop raises ValueError exactly for a blank target and otherwise returns the first case-insensitive match of the normalised target, or none |
| Inventory.AddErrors | src/bloque3/ejercicio_13_gestor_inventario_json.py:253-262 | a blank name, then a negative price, then a negative stock raise ValueError, each before the list is touched; otherwise the addition succeeds |
| Inventory.AddNew | src/bloque3/ejercicio_13_gestor_inventario_json.py:264-267 | a name not present (ignoring case) appends exactly one normalised record and leaves the existing records as they were |
| Inventory.AddExisting | src/bloque3/ejercicio_13_gestor_inventario_json.py:268-271 | a name already present updates the first case-insensitive match: the length is unchanged, the price is overwritten, the stock grows by the given amount, the stored spelling is kept and every other record is unchanged |
| Inventory.AddPreservesValid | src/bloque3/ejercicio_13_gestor_inventario_json.py:253-274 | adding to a valid inventory keeps every record valid, and the returned product is valid |
| Inventory.SellErrors | src/bloque3/ejercicio_13_gestor_inventario_json.py:298-311 | a quantity <= 0 raises ValueError before the lookup; a blank name raises ValueError; an unknown name raises KeyError; for the matched product, InsufficientStock (ValueError) exactly when its stock is below the quantity and success exactly when it is not; a sale succeeds exactly when the quantity is positive, the name is non-blank, a product matches and its stock covers the quantity; a failed sale raises KeyError exactly when the product is unknown |
| Inventory.SellEffect | src/bloque3/ejercicio_13_gestor_inventario_json.py:298-311 | a successful sale changes only the first product whose lower-cased name equals the normalised, lower-cased name: its stock drops by exactly the quantity and stays >= 0, its name and price are kept, it is the product returned, and every other record is unchanged |
| Inventory.SellWholeStock | src/bloque3/ejercicio_13_gestor_inventario_json.py:305-308 | selling the whole stock succeeds and leaves 0; selling one more unit raises ValueError for insufficient stock |
| Inventory.SellPreservesValid | src/bloque3/ejercicio_13_gestor_inventario_json.py:298-311 | selling from a valid inventory keeps every record valid |
| Inventory.Available | src/bloque3/ejercicio_13_gestor_inventario_json.py:315-326 | the result is an order-preserving subsequence of the input holding exactly the products with stock > 0, as many as the input has |
| Inventory.Store.constructor | src/bloque3/ejercicio_13_gestor_inventario_json.py:143-175 | the store opens with the loaded list, which is valid |
| Inventory.Store.Save | src/bloque3/ejercicio_13_gestor_inventario_json.py:178-203 | the list is never changed; the file is replaced by the normalised records only when every record validates, and otherwise keeps its old content |
| Inventory.Store.Add | src/bloque3/ejercicio_13_gestor_inventario_json.py:226-274 | a failed check leaves list and file unchanged; otherwise the list becomes the updated one and the file is re-saved from it, returning the stored product |
| Inventory.Store.Sell | src/bloque3/ejercicio_13_gestor_inventario_json.py:277-311 | a failed check leaves list and file unchanged; otherwise the product's stock is lowered in place and the file is re-saved, returning the product |
| Inventory.ValidStoreAlwaysSaves | src/bloque3/ejercicio_13_gestor_inventario_json.py:273 | on a valid inventory the save after a successful addition or sale never fails, and the file loads back as the list in memory |
| Library.Normalize | src/bloque3/ejercicio_15_biblioteca_json.py:85-138 | each of the three normalisers accepts exactly the text that is not all whitespace and returns `" ".join(text.split())` (Text.Collapse), which is non-empty and canonical; blank text raises ValueError naming its field |
| Library.NormalizeValid | src/bloque3/ejercicio_15_biblioteca_json.py:99-102 | normalised text is a fixed point of the normalisers |
| Library.ValidateBook | src/bloque3/ejercicio_15_biblioteca_json.py:159-173 | a non-dict raises TypeError; the first missing key of "libro_id", "titulo", "prestado_a" raises TypeError naming it; with all three present the result is that of Library.BookFields on their values; an accepted book is valid and its borrower is None exactly when "prestado_a" holds None; no failure is a KeyError |
| Library.BookFields | src/bloque3/ejercicio_15_biblioteca_json.py:165-173 | a blank id raises ValueError first, then a blank title; the book is accepted exactly when id and title are not blank and a borrower other than None is not blank; an accepted book holds the collapsed id, title and borrower text, and its borrower is None exactly when the raw value is None |
| Library.NormalizeBook | src/bloque3/ejercicio_15_biblioteca_json.py:165-173 | for a book held in memory, validation succeeds exactly when id, title and any borrower are not blank; the loan state is kept, and a valid book comes back unchanged |
| Library.ValidateEncoded | src/bloque3/ejercicio_15_biblioteca_json.py:248-253 | the JSON object written for a book validates, whatever the conversions, to exactly what normalising the book in memory gives |
| Library.LoadSpec | src/bloque3/ejercicio_15_biblioteca_json.py:207-224 | every loaded book is valid; a missing file, undecodable text (empty text reads as "[]") or a top level that is not a list gives [] |
| Library.LoadLibrary | src/bloque3/ejercicio_15_biblioteca_json.py:218-224 | the loading loop keeps exactly the entries that validate, normalised, in their original order |
| Library.SaveThenLoad | src/bloque3/ejercicio_15_biblioteca_json.py:246-253 | saving a valid library always succeeds, and loading the file back gives the same books, loan state included |
| Library.IndexOfId | src/bloque3/ejercicio_15_biblioteca_json.py:187-190 | a found index is the first whose lower-cased id equals the key; nothing is found exactly when no id matches |
| Library.IndexOfSameIds | src/bloque3/ejercicio_15_biblioteca_json.py:186-190 | two lists with the same ids in the same places answer every lookup alike, so a loan or return never moves a later lookup |
| Library.FindIndex | src/bloque3/ejercicio_15_biblioteca_json.py:176-190 | the search loop raises ValueError for a blank id and otherwise returns the first case-insensitive match of the normalised id, or none |
| Library.BorrowErrors | src/bloque3/ejercicio_15_biblioteca_json.py:282-289 | a blank id raises ValueError; an unknown id raises KeyError (checked before the borrower); then a blank borrower raises ValueError, then a book already lent raises ValueError; a loan succeeds exactly when the id is non-blank and matches, the borrower is non-blank and the matched book is in |
| Library.ReturnErrors | src/bloque3/ejercicio_15_biblioteca_json.py:315-321 | a blank id raises ValueError; an unknown id raises KeyError; a return succeeds exactly when the id is non-blank and matches and the matched book is lent; every failure is one of those two or NotLent (ValueError) |
| Library.BorrowEffect | src/bloque3/ejercicio_15_biblioteca_json.py:282-293 | a successful loan changes only the first book whose lower-cased id equals the normalised, lower-cased id: that book was in, now has the collapsed borrower name, keeps its id and title and is the book returned; every other book is unchanged |
| Library.ReturnEffect | src/bloque3/ejercicio_15_biblioteca_json.py:315-325 | a successful return changes only the first book whose lower-cased id equals the normalised, lower-cased id: that book was lent, now has no borrower, keeps its id and title and is the book returned; every other book is unchanged |
| Library.BorrowThenReturn | src/bloque3/ejercicio_15_biblioteca_json.py:282-325 | a book just lent cannot be lent again, and returning it restores the list exactly as it was before the loan |
| Library.ReturnThenReturn | src/bloque3/ejercicio_15_biblioteca_json.py:319-322 | returning the same book twice raises ValueError the second time |
| Library.BorrowReturnPreserveValid | src/bloque3/ejercicio_15_biblioteca_json.py:261-325 | loans and returns keep a valid library valid |
| Library.Search | src/bloque3/ejercicio_15_biblioteca_json.py:343-352 | a blank query gives []; otherwise the result is an order-preserving subsequence holding exactly the books whose case-folded title contains the collapsed, case-folded query, as many as the input has |
| Library.OnLoan | src/bloque3/ejercicio_15_biblioteca_json.py:366-372 | the result is an order-preserving subsequence holding exactly the books whose borrower is set and not blank, as many as the input has |
| Library.LoanListFollowsLoans | src/bloque3/ejercicio_15_biblioteca_json.py:290-372 | in a valid library a lent book appears on the loan list and a returned book does not |
| Library.Store.constructor | src/bloque3/ejercicio_15_biblioteca_json.py:198-224 | the store opens with the loaded list, which is valid |
| Library.Store.Save | src/bloque3/ejercicio_15_biblioteca_json.py:227-253 | the list is never changed; the file is replaced by the normalised books only when every book validates, and otherwise keeps its old content |
| Library.Store.Borrow | src/bloque3/ejercicio_15_biblioteca_json.py:261-293 | a failed check leaves list and file unchanged; otherwise the book's borrower is set in place and the file is re-saved, returning the book |
| Library.Store.Return | src/bloque3/ejercicio_15_biblioteca_json.py:296-325 | a failed check leaves list and file unchanged; otherwise the book's borrower is cleared in place and the file is re-saved, returning the book |
| Tasks.NormalizeTask | src/bloque3/ejercicio_11_gestor_tareas_txt.py:72-90 | a task is accepted exactly when it is not all whitespace, and the result is then `" ".join(text.split())` (Text.Collapse): non-empty, canonical and free of line breaks; a blank task raises ValueError |
| Tasks.ViewSpec | src/bloque3/ejercicio_11_gestor_tareas_txt.py:120-138 | an absent file reads as []; no line read back contains a line break, and the lines joined with "\n", plus the file's final line break if it has one, are the file's text |
| Tasks.AppendThenView | src/bloque3/ejercicio_11_gestor_tareas_txt.py:111-117 | on a file only this module wrote, appending a non-blank task adds exactly its normalised text as one more line after the existing ones and keeps the file ending in a line break; a blank task leaves the file as it was |
| Tasks.AppendAllThenView | src/bloque3/ejercicio_11_gestor_tareas_txt.py:93-138 | appending non-blank tasks t1..tk to a missing file and reading it back gives their normalised forms, in order, one line each |
| Tasks.TaskFile.constructor | src/bloque3/ejercicio_11_gestor_tareas_txt.py:133-134 | the task file starts with the given contents (None while the file does not exist) |
| Tasks.TaskFile.Add | src/bloque3/ejercicio_11_gestor_tareas_txt.py:111-117 | a blank task raises ValueError and writes nothing; otherwise the file becomes its old text, the normalised task and one line break |
| Tasks.TaskFile.View | src/bloque3/ejercicio_11_gestor_tareas_txt.py:132-138 | reading the task file gives ViewSpec of its contents: [] when it is absent, otherwise lines that join back into its text |
| Tasks.TwoTasks | src/bloque3/ejercicio_11_gestor_tareas_txt.py:93-138 | two tasks appended to a fresh file read back in order, normalised |
| Reports.ParseCourses | src/bloque3/ejercicio_14_generador_reportes.py:103-104 | every id is a stripped, non-empty ';'-separated piece of the text, in order; blank text gives [] |
| Reports.StudentsOf | src/bloque3/ejercicio_14_generador_reportes.py:137-145 | every student read has a non-empty stripped name, and there are at most as many students as rows |
| Reports.StudentsOfNamedRows | src/bloque3/ejercicio_14_generador_reportes.py:137-145 | the students read are exactly the rows with a non-blank name, in row order, each with its stripped name and parsed course ids |
| Reports.ReadStudents | src/bloque3/ejercicio_14_generador_reportes.py:127-145 | no header raises ValueError; a header without both "nombre" and "cursos" among its stripped names raises ValueError; otherwise the row loop's students |
| Reports.DictToMap | src/bloque3/ejercicio_14_generador_reportes.py:170 | the catalogue read from a JSON object has exactly the keys of the object, as text |
| Reports.DictToMapValues | src/bloque3/ejercicio_14_generador_reportes.py:169-170 | each key of the catalogue read from an object holds, as text, the value of the last entry whose key reads as that text |
| Reports.CatalogueEntry | src/bloque3/ejercicio_14_generador_reportes.py:175-179 | a list entry contributes a pair exactly when it is a dict whose "id" and "nombre" (default "") are not blank as text, and the pair is then their stripped texts |
| Reports.CatalogueKeys | src/bloque3/ejercicio_14_generador_reportes.py:173-181 | an id is in the catalogue read from a list exactly when some entry supplies it, and then both the id and its name are non-empty |
| Reports.CatalogueLastWins | src/bloque3/ejercicio_14_generador_reportes.py:180 | when several entries supply the same id, the name stored is the one of the last of them |
| Reports.ReadCourses | src/bloque3/ejercicio_14_generador_reportes.py:169-183 | an object gives every key mapped to its value as text; a list gives the catalogue of its entries; any other shape raises ValueError |
| Reports.Iterate | src/bloque3/ejercicio_14_generador_reportes.py:217 | lists, tuples and sets iterate over their items and a str over its characters; None, bools and numbers are not iterable |
| Reports.NamesOf | src/bloque3/ejercicio_14_generador_reportes.py:220-221 | TypeError exactly when some id is unhashable; otherwise the catalogue names of the ids that are keys of the catalogue, in id order, duplicates kept |
| Reports.NamesOfKnown | src/bloque3/ejercicio_14_generador_reportes.py:220-222 | with hashable ids there is one name per known id, each a name of the catalogue, and none exactly when no id is known |
| Reports.StudentLine | src/bloque3/ejercicio_14_generador_reportes.py:214-223 | a student that is not a dict raises TypeError, then non-iterable "cursos" raises TypeError; a blank name gives no line; otherwise an unhashable course id raises TypeError, and when none is unhashable the line is "nombre: " with the known course names |
| Reports.ReportLines | src/bloque3/ejercicio_14_generador_reportes.py:212-223 | every failure is a TypeError, and there are never more lines than students |
| Reports.ReportText | src/bloque3/ejercicio_14_generador_reportes.py:225 | the text is empty exactly when there are no lines; otherwise it is the lines joined with "\n" followed by one final "\n" |
| Reports.GenerateReport | src/bloque3/ejercicio_14_generador_reportes.py:207-225 | the loop computes the report: TypeError unless the students are a list and the courses a dict; the first student that is not a dict, whose "cursos" is not iterable, or (when named) holds an unhashable course id raises TypeError; otherwise the lines joined by line breaks with one final line break |
| Reports.ReportLinesErrPersists | src/bloque3/ejercicio_14_generador_reportes.py:213-215 | once a prefix of the students raises, the whole report raises the same error |
| Reports.ReportRejectsNonDict | src/bloque3/ejercicio_14_generador_reportes.py:214-215 | one student that is not a dict makes the whole report raise TypeError |
| Reports.ReportRejectsUnhashable | src/bloque3/ejercicio_14_generador_reportes.py:216-220 | a named student whose course ids hold an unhashable value (a list, say) makes the whole report raise TypeError |
| Reports.ReportLinesAreNamedStudents | src/bloque3/ejercicio_14_generador_reportes.py:213-223 | a successful report has one line per student with a non-blank name, in input order: "nombre: " and the known course names joined by ", ", or "(sin cursos)" |
| Reports.ReportReadsBack | src/bloque3/ejercicio_14_generador_reportes.py:225 | when no line contains a line break, reading the report text back line by line gives exactly the report lines |
| Profiles.ValidateName | src/bloque1/ejercicio_2_generador_perfiles.py:48-71 | the name is accepted exactly when its collapsed form is non-empty, uses only letters, accented letters, apostrophes, spaces and hyphens, and has 2 to 60 characters; the result is then that collapsed form (Text.Collapse), canonical and free of line breaks; EmptyName exactly for a blank name (same logic at src/modulo3/ejercicio_2_generador_perfiles.py:27-36) |
| Profiles.ValidateNameIdempotent | src/bloque1/ejercicio_2_generador_perfiles.py:61-71 | a validated name validates to itself |
| Profiles.ValidateAge | src/bloque1/ejercicio_2_generador_perfiles.py:74-89 | the age is accepted exactly when 0 <= edad <= 120, both ends inclusive, and comes back unchanged; otherwise ValueError (same logic at src/modulo3/ejercicio_2_generador_perfiles.py:39-43) |
| Profiles.Classify | src/bloque1/ejercicio_2_generador_perfiles.py:110-124 | a str whose stripped text matches the hobby class with at most 30 characters is kept as that text, and only such a str is kept; a blank str is skipped and only a blank str is; any other str is discarded as its stripped text; a non-string is discarded as its str() text |
| Profiles.HobbyPartition | src/bloque1/ejercicio_2_generador_perfiles.py:110-124 | every element ends in exactly one place: kept, discarded, or neither when blank |
| Profiles.LowerForms | src/bloque1/ejercicio_2_generador_perfiles.py:108 | the seen set holds the lower-cased form of each kept hobby, one for one |
| Profiles.KeptAreHobbies | src/bloque1/ejercicio_2_generador_perfiles.py:114-118 | every accepted item is stripped, non-empty, at most 30 characters and within the hobby class |
| Profiles.DedupLowerShape | src/bloque1/ejercicio_2_generador_perfiles.py:120-124 | the kept hobbies are an order-preserving subsequence of the accepted items, and no two are equal ignoring case |
| Profiles.DedupCovers | src/bloque1/ejercicio_2_generador_perfiles.py:120-124 | every accepted item has a kept hobby equal to it ignoring case |
| Profiles.DedupKeepsFirst | src/bloque1/ejercicio_2_generador_perfiles.py:120-124 | the hobby kept for a group of items equal ignoring case is the first of them |
| Profiles.CleanHobbies | src/bloque1/ejercicio_2_generador_perfiles.py:92-125 | the loop with its seen set returns the accepted items deduplicated ignoring case (keeping the first) and the discarded texts, both in input order (same loop at src/modulo3/ejercicio_2_generador_perfiles.py:46-69) |
| Profiles.CleanHobbiesValid | src/bloque1/ejercicio_2_generador_perfiles.py:92-125 | every hobby returned is within the hobby class and no two are equal ignoring case |
| Profiles.NormalizeKey | src/bloque1/ejercicio_2_generador_perfiles.py:154 | the key is the input with its spaces removed and then lower-cased (the same as lower-casing first), so it holds no space and no upper-case letter |
| Profiles.WithAt | src/bloque1/ejercicio_2_generador_perfiles.py:160-161 | the handle starts with '@', is at most one character longer, and a handle that already starts with '@' is unchanged |
| Profiles.WithAtIdempotent | src/bloque1/ejercicio_2_generador_perfiles.py:160-161 | adding the '@' twice is adding it once, so an existing '@' is never doubled |
| Profiles.ClassifySocial | src/bloque1/ejercicio_2_generador_perfiles.py:147-168 | a pair is accepted exactly when key and value are not blank, the lower-cased key without spaces matches ^[a-z][a-z0-9_-]{1,29}$, and the value, with '@' added for twitter, instagram and tiktok, has at most 50 characters; it is then stored under that key with that value; a rejected pair is recorded under its stripped key; a pair is ignored exactly when key and value are both blank |
| Profiles.CleanSocial | src/bloque1/ejercicio_2_generador_perfiles.py:128-169 | the loop fills the accepted and the rejected dicts exactly as assigning each classified pair in order does (same loop at src/modulo3/ejercicio_2_generador_perfiles.py:72-102) |
| Profiles.CleanSocialValid | src/bloque1/ejercicio_2_generador_perfiles.py:147-168 | no key is stored twice; every stored handle is under a valid key, is non-empty, has at most 50 characters, starts with '@' for twitter, instagram and tiktok, and comes from some accepted input pair |
| Profiles.InsertByKey | src/bloque1/ejercicio_2_generador_perfiles.py:203-204 | inserting into the sorted pairs adds exactly the new pair and loses none |
| Profiles.InsertByKeySorted | src/bloque1/ejercicio_2_generador_perfiles.py:203-204 | inserting into pairs sorted by key keeps them sorted |
| Profiles.InsertByKeyDistinct | src/bloque1/ejercicio_2_generador_perfiles.py:203-204 | inserting a pair with a new key keeps the keys distinct |
| Profiles.SortByKey | src/bloque1/ejercicio_2_generador_perfiles.py:203-204 | the sorted pairs are a permutation of the dict's items, sorted by key |
| Profiles.SortedDistinct | src/bloque1/ejercicio_2_generador_perfiles.py:203-204 | with distinct keys the sorted keys strictly increase |
| Profiles.SortByKeyDistinct | src/bloque1/ejercicio_2_generador_perfiles.py:203-204 | sorting keeps the keys distinct |
| Profiles.ProfileLines | src/bloque1/ejercicio_2_generador_perfiles.py:210-216 | a profile is made of exactly five lines |
| Profiles.ProfileSpec | src/bloque1/ejercicio_2_generador_perfiles.py:194-216 | creating a profile fails exactly when the name or the age is invalid, and the name is checked first (same logic at src/modulo3/ejercicio_2_generador_perfiles.py:105-148) |
| Profiles.CreateProfile | src/bloque1/ejercicio_2_generador_perfiles.py:172-216 | the method computes the profile text as specified |
| Profiles.ProfileHasFiveLines | src/bloque1/ejercicio_2_generador_perfiles.py:200-216 | split at line breaks, a profile is exactly its five lines: the title, Nombre, Edad, the Hobbies joined by ", " or "Ninguno", and the k=v pairs sorted by key or "Ninguna", provided no input handle contains a line break |
| Profiles.SubseqMemberAll | src/bloque1/ejercicio_2_generador_perfiles.py:120-124 | every deduplicated hobby is an accepted hobby |
| Profiles.LinesHaveNoLineBreak | src/bloque1/ejercicio_2_generador_perfiles.py:210-216 | none of the five lines contains a line break when name, hobbies and handles contain none |
| Profiles.HobbiesHaveNoLineBreak | src/bloque1/ejercicio_2_generador_perfiles.py:200 | the hobbies line never contains a line break |
| Profiles.SocialHasNoLineBreak | src/bloque1/ejercicio_2_generador_perfiles.py:201-209 | the social line contains no line break when no input handle contains one |
| Profiles.NoLineBreakInHandle | src/bloque1/ejercicio_2_generador_perfiles.py:154-167 | an accepted pair written as "k=v" contains no line break when the input handle contains none |
| Profiles.SocialLineIsSortedDict | src/bloque1/ejercicio_2_generador_perfiles.py:201-205 | the social line lists exactly the pairs of the cleaned dict (each key with its last accepted handle), in strictly increasing key order |
| Profiles.ParseHobbies | src/modulo3/ejercicio_2_generador_perfiles.py:151-155 | every hobby parsed is a stripped, non-empty ','-separated piece of the text; blank text gives [] (same logic at src/bloque1/ejercicio_2_generador_perfiles.py:219-230) |
| Profiles.PairOf | src/bloque1/ejercicio_2_generador_perfiles.py:245-252 | a piece gives a pair exactly when it holds '=' and both parts around its first '=' are not blank; the pair is then the two parts, stripped |
| Profiles.ParseSocial | src/bloque1/ejercicio_2_generador_perfiles.py:233-253 | the loop builds the dict exactly as assigning each piece's pair in order does: pieces without '=' or with a blank side are skipped, and a later key overwrites an earlier one (same loop at src/modulo3/ejercicio_2_generador_perfiles.py:158-171) |
| Profiles.ParseSocialOfJoin | src/bloque1/ejercicio_2_generador_perfiles.py:242-253 | writing pairs with distinct keys as "k=v" pieces joined by "," and parsing the text gives back the same pairs in the same order |
| Profiles.PairTextHasNoComma | src/bloque1/ejercicio_2_generador_perfiles.py:245 | a pair that can be written back contains no ',' once written as "k=v" |
| Profiles.PairOfPairText | src/bloque1/ejercicio_2_generador_perfiles.py:248-252 | a pair written as "k=v" parses back to itself |
| Validators.ApplyValidator | src/bloque1/ejercicio_4_validador_generico.py:52-70 | TypeError exactly when the data is not a list or the validator is not callable; otherwise the result is an order-preserving selection of the list holding only accepted elements, as many as the list accepts (same logic at src/modulo3/ejercicio_4_validador_generico.py:25-43) |
| Validators.ApplyValidatorExtremes | src/bloque1/ejercicio_4_validador_generico.py:70 | a validator accepting every element returns the list unchanged; one rejecting every element returns [] |
| Validators.ApplyValidatorUnique | src/bloque1/ejercicio_4_validador_generico.py:70 | any order-preserving selection of accepted elements that is as long as the number of accepted elements is the result: the filter keeps exactly the accepted elements, in order |
| Validators.EmailCheckMatches | src/bloque1/ejercicio_4_validador_generico.py:77 | cutting at the first '@' and at the last '.' after it accepts exactly the texts that the pattern local@domain.tld matches in full (local part [A-Za-z0-9._%+-]+, domain [A-Za-z0-9.-]+, top label [A-Za-z]{2,}) |
| Validators.StrippedMatch | src/bloque1/ejercicio_4_validador_generico.py:77 | on stripped text the anchored match coincides with a full match: the final-newline allowance of `$` never applies |
| Validators.IsEmail | src/bloque1/ejercicio_4_validador_generico.py:80-94 | an address is valid exactly when it is a str whose stripped form holds no space and matches the pattern; a valid address is non-blank (same logic at src/modulo3/ejercicio_4_validador_generico.py:55-69) |
| Validators.EmailHasOneAt | src/bloque1/ejercicio_4_validador_generico.py:77-94 | a valid address holds exactly one '@' |
| Validators.FirstAtOfShape | src/bloque1/ejercicio_4_validador_generico.py:77 | in a text the pattern matches, the '@' of the match is the first '@' of the text |
| Validators.OnlyOneAt | src/bloque1/ejercicio_4_validador_generico.py:77 | in a text the pattern matches, no '@' follows the '@' of the match |
| Validators.EmailAccepted | test/test_ejercicio_4_validador_generico.py:40 | "a@b.co" is a valid address |
| Validators.EmailNeedsAt | src/bloque1/ejercicio_4_validador_generico.py:77-94 | a text without '@' is never a valid address |
| Validators.EmailRejected | test/test_ejercicio_4_validador_generico.py:42-44 | "invalido" and "" are rejected |
| Validators.EmailWithoutDotRejected | test/test_ejercicio_4_validador_generico.py:43 | "a@b", whose domain has no '.', is rejected |
| Validators.IsGreaterThan10 | src/bloque1/ejercicio_4_validador_generico.py:97-109 | true exactly for an int above 10; floats, strings and the other non-ints are false (same logic at src/modulo3/ejercicio_4_validador_generico.py:72-84) |
| Validators.GreaterThan10Example | test/test_ejercicio_4_validador_generico.py:24-27 | filtering [4, 11, 9, 25, 10, 13] with the "greater than 10" validator gives [11, 25, 13] |
| Validators.ParseCsvInts | src/bloque1/ejercicio_4_validador_generico.py:233-258 | the loop returns, in order, the numbers int() gives for the stripped non-blank ','-pieces it accepts and the pieces it rejects; blank text gives two empty lists (same loop at src/modulo3/ejercicio_4_validador_generico.py:142-158) |
| Validators.PartitionSizes | src/bloque1/ejercicio_4_validador_generico.py:249-257 | every piece goes to exactly one of the two lists |
| Validators.ParseToken | src/bloque1/ejercicio_4_validador_generico.py:249-257 | one pass of the loop: a blank stripped piece leaves both lists as they were, a piece int() rejects is appended to the invalid tokens, any other piece appends its number; this is the step the partition of the pieces is built from |
| Validators.ParseCsvIntsPartition | src/bloque1/ejercicio_4_validador_generico.py:233-258 | the two lists together are as long as the pieces; every invalid token is a stripped non-blank piece, and every number is what int() gives for some piece |
| Text.Pieces | src/bloque1/ejercicio_4_validador_generico.py:219-230 | every piece is stripped, non-empty and free of the separator, and the pieces are the stripped non-blank parts of the split in order (same logic at src/modulo3/ejercicio_4_validador_generico.py:136-139) |
| Text.PiecesOfJoin | src/bloque1/ejercicio_4_validador_generico.py:219-230 | joining stripped, non-empty, separator-free texts and splitting them again gives back the same texts |
| Words.RunLength | src/bloque2/ejercicio_8_transformacion_comprehensions.py:43 | a run of the word pattern is as long as possible: every character in it is a word character and the one after it is not |
| Words.Tokens | src/bloque2/ejercicio_8_transformacion_comprehensions.py:64 | findall yields only non-empty words made of letters, accented capitals and lower-case accented letters; Words.TokensOfWordThen and Words.TokensSkip fix the tokens as the maximal runs |
| Words.TokensKeepLetters | src/bloque2/ejercicio_8_transformacion_comprehensions.py:64 | the tokens, concatenated, are exactly the word characters of the text in order: findall loses no letter and adds nothing |
| Words.RunLengthOfWord | src/bloque2/ejercicio_8_transformacion_comprehensions.py:43 | a run started on a word stops exactly at its end when the next character is not a word character |
| Words.TokensOfJoin | src/bloque2/ejercicio_8_transformacion_comprehensions.py:64 | tokenising words joined with spaces gives back the same words |
| Words.TokensOfWordThen | src/bloque2/ejercicio_8_transformacion_comprehensions.py:64 | a word followed by the end or by a non-word character is the first token, and the tokens of the rest follow it |
| Words.TokensSkip | src/bloque2/ejercicio_8_transformacion_comprehensions.py:64 | a leading non-word character yields no token |
| Words.LongUpperWords | src/bloque2/ejercicio_8_transformacion_comprehensions.py:46-65 | the result holds one entry per token strictly longer than the threshold, in order of appearance, each upper-cased, longer than the threshold and made only of upper-case letters |
| Words.UpperKeepsWord | src/bloque2/ejercicio_8_transformacion_comprehensions.py:65 | upper-casing a word loses nothing: lower-casing the result gives the same as lower-casing the word |
| Words.WordLengthsSpec | src/bloque2/ejercicio_8_transformacion_comprehensions.py:68-78 | the dict's keys are exactly the input words, each once, and each maps to its own length, so repeated words change nothing |
| Words.LengthsOfLongWords | src/bloque2/ejercicio_8_transformacion_comprehensions.py:46-78 | fed the long words, the length dict only records lengths above the threshold |
| Explorer.Values | src/bloque2/ejercicio_10_explorador_recursivo.py:106 | a dict contributes its values, one per entry in insertion order, never its keys |
| Explorer.Children | src/bloque2/ejercicio_10_explorador_recursivo.py:105-119 | every element a structure holds is strictly smaller than it, so the recursion ends |
| Explorer.FilterAtoms | src/bloque2/ejercicio_10_explorador_recursivo.py:69-78 | the atoms of a list are an order-preserving selection holding only non-structures, as many as the list has |
| Explorer.Explore | src/bloque2/ejercicio_10_explorador_recursivo.py:81-125 | ValueError exactly when the depth is below 1; an atom at a valid depth yields itself at that depth |
| Explorer.WalkSubsIsFilter | src/bloque2/ejercicio_10_explorador_recursivo.py:108-111 | recursing into the sub-structures in their order is recursing into the list the structure filter returns |
| Explorer.WalkShape | src/bloque2/ejercicio_10_explorador_recursivo.py:105-122 | a structure's walk is its atoms paired with the current depth, followed by the walks of its sub-structures one level deeper, in order |
| Explorer.DictIsItsValues | src/bloque2/ejercicio_10_explorador_recursivo.py:105-112 | a dict is walked exactly like the list of its values: its keys play no part |
| Explorer.WalkLeaves | src/bloque2/ejercicio_10_explorador_recursivo.py:81-125 | the walk has one pair per atomic leaf, and every pair holds an atom at a depth of at least the starting depth |
| Explorer.WalkSubsLeaves | src/bloque2/ejercicio_10_explorador_recursivo.py:110-111 | the sub-structure walks together hold one pair per leaf not directly among the elements, each an atom at a depth of at least the next level |
| Explorer.LeavesAtLeastAtoms | src/bloque2/ejercicio_10_explorador_recursivo.py:107-109 | each atom among the elements counts as one leaf |
| Explorer.BasicExample | test/test_ejercicio_10_explorador_recursivo.py:9-12 | [1, [2, 3], {"a": 4}] explores to [(1, 1), (2, 2), (3, 2), (4, 2)] |
| Explorer.TopLevelExample | test/test_ejercicio_10_explorador_recursivo.py:10 | at the top level of that example, 1 is the only atom and the list and the dict are the sub-structures, in order |
| Explorer.InnerListExample | test/test_ejercicio_10_explorador_recursivo.py:10 | the inner list [2, 3] at depth 2 yields (2, 2) and (3, 2) |
| Explorer.InnerDictExample | test/test_ejercicio_10_explorador_recursivo.py:10 | the inner dict {"a": 4} at depth 2 yields only (4, 2), not its key |
| Grades.FilterPassed | src/bloque2/ejercicio_7_filtrado_estudiantes.py:46-83 | ValueError exactly when the pass mark is outside [0, 5] (checked first); TypeError exactly when the data is not a list or some element is not a (str, int or float) pair; otherwise an order-preserving selection of pairs whose grade reaches the mark, one per such pair |
| Grades.PassedMembership | src/bloque2/ejercicio_7_filtrado_estudiantes.py:78-83 | the bound is inclusive: a listed pair is kept exactly when its grade is at least the mark |
| Grades.BoundaryExample | test/test_ejercicio_7_filtrado_estudiantes.py:19-22 | with mark 3.0, ("A", 3.0) is kept and ("B", 2.99) is not |
| Grades.Replace | src/bloque2/ejercicio_7_filtrado_estudiantes.py:173 | replacing ',' with '.' keeps the length and changes exactly the ',' characters |
| Grades.ReplaceAbsent | src/bloque2/ejercicio_7_filtrado_estudiantes.py:173 | a grade text without ',' is left unchanged |
| Grades.ParseStudents | src/bloque2/ejercicio_7_filtrado_estudiantes.py:160-177 | the loop returns, in order, one (name, grade) pair per non-blank ','-piece holding a ':' whose grade float() accepts after stripping and reading ',' as '.'; the name is stripped and a blank one becomes "—"; blank text gives [] |
| Grades.ParseStudentsOfJoin | src/bloque2/ejercicio_7_filtrado_estudiantes.py:160-177 | writing entries as "name:grade" joined by "," and parsing the text gives back one pair per entry, each with the entry's name and float() of its grade text |
| Grades.LineReadsBack | src/bloque2/ejercicio_7_filtrado_estudiantes.py:167-176 | one written "name:grade" line holds no ',', is non-blank and parses back to its entry |
| Grades.ParsedPairsFilter | src/bloque2/ejercicio_7_filtrado_estudiantes.py:205-211 | parsed pairs, as (str, float) tuples, always pass the type checks: filtering them fails only for a mark outside [0, 5] |
| Reduce.Texts | src/bloque2/ejercicio_9_sumatoria_reduce.py:57-72 | a list of strings gives one text per element, in order |
| Reduce.FoldSum | src/bloque2/ejercicio_9_sumatoria_reduce.py:54 | the reduce with "acc + float(x)" adds the arithmetic sum of the numbers to its start value |
| Reduce.FoldConcat | src/bloque2/ejercicio_9_sumatoria_reduce.py:72 | the reduce with "acc + s" appends the concatenation of the parts to its start value |
| Reduce.SumReduce | src/bloque2/ejercicio_9_sumatoria_reduce.py:39-54 | TypeError exactly when some element is not an int, float or bool; otherwise the arithmetic sum of the elements, and 0.0 for none |
| Reduce.ConcatReduce | src/bloque2/ejercicio_9_sumatoria_reduce.py:57-72 | TypeError exactly when some element is not a str; otherwise the parts concatenated in order, and "" for none |
| Reduce.ConcatLength | src/bloque2/ejercicio_9_sumatoria_reduce.py:72 | the concatenation is exactly as long as all the parts together |
| Reduce.ConcatHoldsParts | src/bloque2/ejercicio_9_sumatoria_reduce.py:72 | every part appears in the concatenation, unchanged, right after the parts before it |
| Reduce.SumAppend | src/bloque2/ejercicio_9_sumatoria_reduce.py:54 | the sum of two lists joined is the sum of each |
| Reduce.IntSumExample | test/test_ejercicio_9_sumatoria_reduce.py:11-14 | [1, 2, 3, 4, 5] sums to 15.0 |
| Reduce.FloatSumExample | test/test_ejercicio_9_sumatoria_reduce.py:31-34 | [1.5, 2.25, 0.25] sums to 4.0 |
| Reduce.ConcatExample | test/test_ejercicio_9_sumatoria_reduce.py:17-20 | ["Hola", " ", "SENA", "!"] concatenates to "Hola SENA!" |
| Reduce.TypeErrorExamples | test/test_ejercicio_9_sumatoria_reduce.py:37-41 | a str among numbers and an int among strings both raise TypeError |
| Reduce.ParseCsvTexts | src/bloque2/ejercicio_9_sumatoria_reduce.py:183-186 | the texts are the stripped non-blank ','-pieces in order, each stripped and free of ','; blank text gives [] |
| Reduce.ParsedTextsConcatenate | src/bloque2/ejercicio_9_sumatoria_reduce.py:213-217 | texts parsed from the menu's input always concatenate without a TypeError, to the pieces joined in order |
| Discounts.PriceDiscount | src/bloque2/ejercicio_6_procesamiento_map_lambda.py:16-50 | ValueError exactly when the discount is outside [0, 1] (checked first); TypeError exactly when the products are not a list or one is not a dict with an int or float "precio"; otherwise one price per product, in order, each that product's price times (1 - discount) rounded to two decimals |
| Discounts.DiscountMonotone | src/bloque2/ejercicio_6_procesamiento_map_lambda.py:30-35 | a larger discount never gives a larger price for a product with a non-negative price, under an order-keeping rounding |
| Discounts.DiscountExtremes | src/bloque2/ejercicio_6_procesamiento_map_lambda.py:30-35 | the full discount makes every price 0.0, and no discount leaves a two-decimal price as it was |
| Discounts.TenPercentExample | test/test_ejercicio_6_procesamiento_map_lambda.py:10-18 | 10% off 50000, 80000, 120000 and 9000 gives 45000.0, 72000.0, 108000.0 and 8100.0 |
| Discounts.InvalidExamples | test/test_ejercicio_6_procesamiento_map_lambda.py:43-53 | a negative discount raises ValueError; a str instead of a list, a dict without "precio" and a str price raise TypeError |
| Discounts.ProductPrice | src/bloque2/ejercicio_6_procesamiento_map_lambda.py:127 | a product dict built by the parser reads back the price it was given |
| Discounts.ParseProducts | src/bloque2/ejercicio_6_procesamiento_map_lambda.py:109-128 | the loop returns, in order, one {"nombre", "precio"} dict per non-blank ','-piece holding a ':' whose price float() accepts after stripping and reading ',' as '.'; a blank name becomes "—"; blank text gives [] |
| Discounts.ParsedProductsArePriced | src/bloque2/ejercicio_6_procesamiento_map_lambda.py:127 | every parsed product is a dict with a float "precio" equal to the parsed price |
| Discounts.ParsedProductsDiscount | src/bloque2/ejercicio_6_procesamiento_map_lambda.py:157-162 | parsed products always pass the type checks: discounting them fails only for a discount outside [0, 1], and each price is the parsed price discounted and rounded |
| Counters.Counter.constructor | src/bloque1/ejercicio_3_contador_closure.py:42-58 | a new counter starts at 0 |
| Counters.Counter.Call | src/bloque1/ejercicio_3_contador_closure.py:60-63 | each call raises the counter's own count by one and returns the new count |
| Counters.DemoIndependence | src/bloque1/ejercicio_3_contador_closure.py:154-163 | on two fresh counters the calls c1, c1, c2, c1, c2 return 1, 2, 1, 3, 2: neither counter sees the other's calls |
| Counters.SequentialCalls | test/test_ejercicio_3_contador_closure.py:8-14 | three calls on a fresh counter return 1, 2 and 3 |
| Counters.Board.constructor | src/bloque1/ejercicio_3_contador_closure.py:197-198 | the menu starts with no counters and an empty mirror of values |
| Counters.Board.Create | src/bloque1/ejercicio_3_contador_closure.py:216-220 | a fresh counter is appended, the existing ones kept, and a 0 appended to the mirror; the mirror still matches every counter |
| Counters.Board.Increment | src/bloque1/ejercicio_3_contador_closure.py:227-263 | with no counters nothing happens; an index int() rejects or outside 1..len raises ValueError and changes nothing; otherwise exactly the chosen counter goes up by one, its new value is returned and stored in the mirror, and every other counter and value is unchanged |
| Tax.Calculator.constructor | src/bloque1/ejercicio_5_calculadora_impuestos.py:19-20 | the rate starts at 0.19 |
| Tax.Calculator.Compute | src/bloque1/ejercicio_5_calculadora_impuestos.py:23-38 | ValueError exactly when the base is negative; otherwise the base times the current rate, rounded to two decimals, which with a rate in [0, 1] lies between 0 and the rounded base; the rate is not changed |
| Tax.Calculator.Update | src/bloque1/ejercicio_5_calculadora_impuestos.py:41-53 | ValueError exactly when the new rate is outside [0, 1], leaving the rate as it was; otherwise the rate becomes exactly the new one; the rate stays in [0, 1] |
| Tax.RateChanges | test/test_ejercicio_5_calculadora_impuestos.py:18-57 | 100.0 taxes 19.0 at the default rate and 20.0 after moving the rate to 0.2; 250.0 then taxes 25.0 at 0.1 and 52.5 at 0.21: each update is seen by every later calculation |
| Tax.RejectedInputs | test/test_ejercicio_5_calculadora_impuestos.py:33-38 | a negative base and the rates -0.1 and 1.5 all raise ValueError, and the rate stays 0.19 |
| Bmi.Compute | src/bloque1/ejercicio_1_refactorizacion_calculadora_imc.py:61-82 | ValueError exactly when the weight or the height is 0 or less; otherwise weight divided by the height squared, rounded to two decimals (same logic at src/modulo3/ejercicio_1_refactorizacion_calculadora_imc.py:30-51) |
| Bmi.Interpret | src/bloque1/ejercicio_1_refactorizacion_calculadora_imc.py:85-112 | ValueError exactly when the index is 0 or less; otherwise Bajo peso exactly below 18.5, Normal exactly in [18.5, 25), Sobrepeso exactly in [25, 30) and Obesidad exactly from 30 on (same logic at src/modulo3/ejercicio_1_refactorizacion_calculadora_imc.py:54-81) |
| Bmi.LabelsDistinct | src/bloque1/ejercicio_1_refactorizacion_calculadora_imc.py:106-112 | the four labels tell the categories apart |
| Bmi.InterpretMonotone | src/bloque1/ejercicio_1_refactorizacion_calculadora_imc.py:56-58 | a larger index never gives a lighter category |
| Bmi.ComputeThenInterpret | test/test_ejercicio_1_refactorizacion_calculadora_imc.py:74-79 | valid measurements whose index is at least 0.01 always compute and then get a category |
| Bmi.InterpretExamples | test/test_ejercicio_1_refactorizacion_calculadora_imc.py:44-71 | the boundaries 18.5, 25.0 and 30.0 fall in the upper category, the values just below them in the lower one, and 0.0 and negative indexes raise ValueError |
| Bmi.ComputeExamples | test/test_ejercicio_1_refactorizacion_calculadora_imc.py:13-41 | 120 kg at 2.00 m gives 30.0 and 500 kg at 2.50 m gives 80.0; a weight or height of 0 or less raises ValueError |
| Text.Strip | src/bloque2/ejercicio_7_filtrado_estudiantes.py:171 | str.strip(): the result neither starts nor ends with whitespace, and is empty exactly when the text is all whitespace |
| Text.StripShape | src/bloque2/ejercicio_7_filtrado_estudiantes.py:171 | the stripped text is a slice of the original with only whitespace cut from either end |
| Text.Words | src/bloque3/ejercicio_11_gestor_tareas_txt.py:87 | str.split(): every word is non-empty and holds no whitespace, and there are none exactly when the text is blank; Text.WordsOfWordThen, Text.WordsSkipSpace and Text.WordsKeepCharacters fix the words as the maximal non-whitespace runs |
| Text.Collapse | src/bloque3/ejercicio_11_gestor_tareas_txt.py:87 | " ".join(s.split()): the result has only single spaces between non-blank characters, no whitespace at either end, and is empty exactly when the text is blank; Text.CollapseKeepsWords and Text.CollapseUnique make it the one such text with the same words (same idiom at src/bloque1/ejercicio_2_generador_perfiles.py:61) |
| Text.CollapseCanonical | src/bloque3/ejercicio_11_gestor_tareas_txt.py:87 | text already in that form is left unchanged |
| Text.CollapseIdempotent | src/bloque3/ejercicio_11_gestor_tareas_txt.py:87 | collapsing twice is collapsing once |
| Text.WordsOfWordThen | src/bloque3/ejercicio_11_gestor_tareas_txt.py:87 | a word that ends where whitespace or the text ends is the first word, and the words of the rest follow it |
| Text.WordsSkipSpace | src/bloque3/ejercicio_11_gestor_tareas_txt.py:87 | a leading whitespace character yields no word |
| Text.WordsKeepCharacters | src/bloque3/ejercicio_11_gestor_tareas_txt.py:87 | the words, concatenated, are exactly the non-whitespace characters of the text in order |
| Text.WordsOfJoin | src/bloque3/ejercicio_11_gestor_tareas_txt.py:87 | splitting words joined with single spaces gives back the same words |
| Text.CollapseKeepsWords | src/bloque3/ejercicio_11_gestor_tareas_txt.py:87 | collapsing keeps the words of the text |
| Text.CollapseUnique | src/bloque3/ejercicio_11_gestor_tareas_txt.py:87 | any canonical text with the same words as s is Collapse(s) |
| Text.CanonicalHasNoLineBreak | src/bloque3/ejercicio_11_gestor_tareas_txt.py:87 | collapsed text never contains '\n' or '\r', so a normalised task always fits on one line |
| Text.Split | src/bloque2/ejercicio_7_filtrado_estudiantes.py:165 | str.split(sep): no piece holds the separator, and joining the pieces with it gives the text back |
| Text.SplitJoin | src/bloque2/ejercicio_7_filtrado_estudiantes.py:165 | splitting pieces joined with the separator gives back the same pieces |
| Text.SplitOnce | src/bloque2/ejercicio_7_filtrado_estudiantes.py:170 | str.split(sep, 1): the text is the first part, the separator and the rest, and the first part holds no separator |
| Text.SplitOnceUnique | src/bloque2/ejercicio_7_filtrado_estudiantes.py:170 | the cut is at the first separator and nowhere else |
| Text.Lines | src/bloque3/ejercicio_11_gestor_tareas_txt.py:137-138 | reading lines and removing their "\n": no line holds a line break, and there are none exactly for empty contents; Text.LinesJoinBack gives the contents back from the lines |
| Text.LinesOfJoined | src/bloque3/ejercicio_11_gestor_tareas_txt.py:137-138 | lines written each followed by "\n" read back as the same lines when none contains a line break |
| Text.LinesJoinBack | src/bloque3/ejercicio_11_gestor_tareas_txt.py:137-138 | any contents are their lines joined with "\n" plus their final line break, if any: reading keeps everything but the line breaks |
| Text.Lower | src/bloque1/ejercicio_2_generador_perfiles.py:120 | str.lower(): the same length, each upper-case letter mapped to its lower-case form and every other character kept |
| Text.Upper | src/bloque2/ejercicio_8_transformacion_comprehensions.py:65 | str.upper(): the same length, each lower-case letter mapped to its upper-case form and every other character kept |

## Left out

- All Rich presentation and input loops (`_panel_*`, `_tabla_*`, `menu`, `_flujo_*`, `main`, the prompts
  and the KeyboardInterrupt handlers). Only the menu state that exercise 3 keeps (`contadores` and
  `valores`) is modelled, as `Counters.Board`.
- Real file-system work: `open`, `mkdir` and path resolution (`_ruta_*`, `_resolver_en_data`), the
  sample-data writers, `_guardar_reporte`, and OSError from the operating system. A JSON file is a
  snapshot: missing, empty, undecodable or a decoded value. A text file is its contents, or None when
  it does not exist.
- JSON and CSV decoding and encoding (`json.load`, `json.dump`, `csv.DictReader`). The model starts from
  decoded values and from a header plus rows of cells. Universal-newline translation when reading text
  is not modelled: lines are split at "\n" only.
- `src/bloque3/ejercicio_12_analizador_csv.py` as a whole. It is CSV reading plus float statistics and
  has no structural logic left once those are abstracted.
- `_parse_csv_numeros` of exercise 9 and `_parse_float` of exercises 1 and 5. They are `float()` applied
  to menu input.
- `_parse_literal` of exercise 10. It is `ast.literal_eval`, which belongs to the interpreter.
- Floating point: floats are reals, with no NaN, infinity, overflow or representation error.
  `round(x, 2)` is a parameter `round2`. Where a property needs it, the contract assumes only that
  rounding leaves two-decimal amounts unchanged (`KeepsCents`) and keeps order (`IsMonotone`).
- Reduce.SumReduce: states the exact sum of the elements, not the float accumulation of the source's
  `reduce`, because floats are reals here.
- Inventory.LoadSpec: a file that is not valid UTF-8 makes `cargar_inventario` raise UnicodeDecodeError
  (src/bloque3/ejercicio_13_gestor_inventario_json.py:158-163), which `except json.JSONDecodeError` does not
  catch. A file snapshot here is decoded text, so that case has no state; `Undecodable` stands for
  malformed JSON only.
- Library.LoadSpec: likewise, `read_text(encoding="utf-8")` raises UnicodeDecodeError for a file that is
  not valid UTF-8 (src/bloque3/ejercicio_15_biblioteca_json.py:210-213); that case is not modelled.
- Inventory.Store.Add: `precio` is a real and `stock` an int, so the TypeError `agregar_producto` raises when
  `float()` or `int()` rejects them (src/bloque3/ejercicio_13_gestor_inventario_json.py:254-258) is not
  modelled, nor the truncation `int()` applies to a fractional stock. Inventory.AddSpec follows the same types.
- Inventory.Store.Sell: `cantidad` is an int, so the exception `int(cantidad)` raises for other values
  (src/bloque3/ejercicio_13_gestor_inventario_json.py:298) is not modelled. Inventory.SellSpec follows the
  same type.
- Reports.GenerateReport: the catalogue is a str-to-str map, as `leer_json_cursos` returns it. A dict
  argument with other keys or values is not modelled: neither the TypeError of `", ".join` on a name that
  is not a str (src/bloque3/ejercicio_14_generador_reportes.py:222) nor matches between non-str ids and
  non-str keys. Reports.ReportLines, Reports.StudentLine and Reports.NamesOf take the same map.
- Bmi.ComputeThenInterpret: requires an exact index of at least 0.01, because below that the rounded
  index can be 0.0, which `interpretar_imc` rejects.
- Text-to-number conversion. `float()` and `int()` applied to strings are abstract partial parsers:
  the `parseFloat` and `parseInt` fields of `PyValues.Conversions`. `str()` of a non-string is
  its `show` field.
  - Python's leniency (signs, '_' separators, Unicode digits, exponents) is therefore not fixed
    by the model.
  - The conversion of `nota_minima` and `descuento` with `float()` is not modelled: both are reals
    already.
  - `min_longitud` is an int already, so `int()` applied to it is not modelled either.
- The general regular-expression engine. Only the character classes of `_PATRON_EMAIL`,
  `_PATRON_PALABRA` and the social-key and hobby patterns are modelled, as predicates.
- Unicode case mapping. `lower()`, `upper()` and `casefold()` are restricted to ASCII letters plus
  ÁÉÍÓÚÜÑ and their lower-case forms; other characters are left unchanged.
- Set and frozenset iteration order. Their elements are a sequence in the order they are iterated.
- The bool-is-int quirk appears only where `isinstance(x, (int, float))` accepts a bool as a number.
  Any other argument type Python would accept or reject (a callable that raises, an object with
  `__str__`) is a `PyValues.Value` constructor or a total predicate.
  - `aplicar_validador` takes a validator that always returns a bool, so `bool(...)` of other
    return values is not modelled.
- Aliasing between the caller's list and the stores' lists is not modelled. Each store owns its
  list as a sequence field.
- Profiles.ProfileHasFiveLines: requires that no input handle contains a line break, because such a
  handle would break the five-line shape of the profile. Social values are modelled as strings only.
- The exercise-14 test `test_lectura_csv_basica` (test/test_ejercicio_14_generador_reportes.py:44-51)
  expects the row named "SinNombre" to be skipped. The code keeps every row whose stripped name is
  non-blank, and the model follows the code (`Reports.StudentsOfNamedRows`).
