# RoleType registry — Dafny model

This project models the role-name registry of the `com.iapex.security` package:
the enum `RoleType`, a closed set of two roles (`ROLE_ADMIN`, `ROLE_USER`), and
its static lookup `findByType(String)`, which scans `values()` in declaration
order and returns the first constant whose `name()` equals the argument
(exact, case-sensitive `String.equals`), or `null` when none does.

- `Wrappers.Option` stands for a nullable reference; `RoleTypes.JavaString`
  (`Option<string>`) is the lookup's `String` argument, with `None` for `null`.
- `RoleTypes.RoleType` is the enum, `RoleTypes.Name` its `name()`,
  `RoleTypes.Values` its `values()` table.
- `RoleTypes.FindIn` is the linear scan over a table, `RoleTypes.FindByType`
  the lookup over `values()`; `RoleTypes.FindByTypeScan` is the same lookup
  written as the source's `for` loop with an early return, proved equal to
  `FindByType`.

## Model

| member | source | states |
|---|---|---|
| RoleTypes.Values | src/main/java/com/iapex/security/type/RoleType.java:8-9 | `values()` lists both constants, each exactly once, `ROLE_ADMIN` first |
| RoleTypes.EveryVariantListed | src/main/java/com/iapex/security/type/RoleType.java:6-12 | the enum is closed: every constant appears in the table the lookup scans |
| RoleTypes.NameInjective | src/main/java/com/iapex/security/type/RoleType.java:8-9 | two constants have the same name exactly when they are the same constant |
| RoleTypes.FindIn | src/main/java/com/iapex/security/type/RoleType.java:12-17 | the scan returns a constant of the table whose name equals the argument; it returns `null` exactly when no constant of the table matches |
| RoleTypes.FindByType | src/main/java/com/iapex/security/type/RoleType.java:11-18 | a constant is found exactly when the argument is the string "ROLE_ADMIN" or "ROLE_USER", and the found constant's name is the argument |
| RoleTypes.FindByTypeScan | src/main/java/com/iapex/security/type/RoleType.java:11-18 | the loop with early return computes the lookup, and returns `null` exactly when no constant's name equals the argument |
| RoleTypes.FindInIsFirstMatch | src/main/java/com/iapex/security/type/RoleType.java:12-15 | for any table, the scan returns the first entry whose name equals the argument, the early `return` of the loop |
| RoleTypes.MatchIsFound | src/main/java/com/iapex/security/type/RoleType.java:12-14 | any constant of the table whose name equals the argument is the one returned: the first match is the unique match |
| RoleTypes.RoundTripFromVariant | src/main/java/com/iapex/security/type/RoleType.java:11-15 | for every constant `r`, `findByType(r.name())` returns `r` |
| RoleTypes.RoundTripFromString | src/main/java/com/iapex/security/type/RoleType.java:13-14 | if `findByType(s)` returns `r` then `r.name()` equals `s` exactly |
| RoleTypes.UnknownIsNotFound | src/main/java/com/iapex/security/type/RoleType.java:12-17 | any string other than "ROLE_ADMIN" and "ROLE_USER" gives `null`, never an error |
| RoleTypes.NotFoundCases | src/main/java/com/iapex/security/type/RoleType.java:13-17 | "", "ROLE_GUEST", the case variant "role_admin" and a `null` argument all give `null` |
| RoleTypes.ScanOrderIrrelevant | src/main/java/com/iapex/security/type/RoleType.java:8-14 | scanning any table with the same constants, in any order, gives the same answer as the declared order |

Determinism and statelessness of the lookup hold by construction: `FindByType`
is a function with no `reads` clause, so equal arguments give equal results
and no state is read or written.

## Left out

- `UserRepository.findByUsername` (src/main/java/com/iapex/security/UserRepository.java:12): a query whose implementation the persistence framework generates and runs against a database; there is no logic in the repository to model.
- `RoleRepository.findByUserId` (src/main/java/com/iapex/security/RoleRepository.java:14): the same kind of generated database query.
- The read-only transaction annotations on both repositories: transaction handling belongs to the framework.
- `SecurityContextNotFoundException`: its two constructors only forward the message and cause to the framework's `AuthenticationException`; there is no behaviour to state.
- The `User` and `Role` entity classes, the database schema and username uniqueness are not part of this model.
- Java's `Enum` machinery beyond `name()` and `values()` (`ordinal()`, `valueOf`, which throws on an unknown name) is not used by the lookup and is not modelled.
