# Addon installer for the WHSuite Composer plugin

This project models `AddonInstaller`, the Composer installer for packages of type
`whsuite-addon`. The model covers three parts:

- how a package name is mapped to an install directory under `app/addons`;
- how an update chooses between an in-place update, remove plus reinstall, and
  rename plus update;
- how install, update and uninstall change the installed-package repository.

Two modules make up the model:

- `PhpStrings` (`php_strings.dfy`) models the PHP built-ins the installer uses.
  These are `strtolower`, `str_replace` with one search string, `substr` from
  offset 0 and `explode` with a limit of 2. Their properties are proved here:
  `str_replace` makes one left-to-right scan, replacing one character by
  another is a pointwise map, and the `substr` comparison is a prefix test.
- `Installer` (`addon_installer.dfy`) models the installer itself.
  - `InstallPath` derives the install path of a package.
  - `UpdatePlan` is the update step's three-way decision, written as the list
    of collaborator calls it makes.
  - The class `AddonInstaller` has the mutable base directory `addonDir` and a
    `log` of collaborator calls. Each call to the download manager
    (`download`, `update`, `remove`) or to the filesystem helper
    (`ensureDirectoryExists`, `rename`) appends one `Action` to the log.
  - The host's installed-package repository is the class `InstalledRepository`.
    It holds a list of packages that is changed in place. `AddPackage` appends
    unconditionally, and `RemovePackage` drops the first listing. So the
    `hasPackage` checks before each add are what keep a package from being
    listed twice. Packages are values of `(name, version)`, so the
    repository's `clone` of a descriptor is the value itself.

Two constants stand for the two separators in the code. `NameSeparator` is the
`/` that `explode` splits package names on. `DirSeparator` is
`DIRECTORY_SEPARATOR`, which is fixed to `/`. Filesystem queries are parameters of the methods
that use them:

- `resolved` is the answer of `realpath` for the base directory;
- `readable` is the set of paths that `is_readable` accepts.

The base directory is not resolved once and cached. The code
(src/AddonInstaller.php:74,96,178-181) calls `ensureDirectoryExists` and
`realpath` again on every `install` and `update`, and the model does the same.
So each `Install` and `Update` logs `EnsureDir` of the current `addonDir` and
then replaces `addonDir` with `resolved`. `uninstall` does not re-resolve, and
`Uninstall` uses whatever `addonDir` currently holds.

## Model

| member | source | states |
|---|---|---|
| PhpStrings.ToLower | src/AddonInstaller.php:131 | `strtolower` keeps the length, maps each A-Z to its lower-case letter, keeps every other character, and leaves no upper-case ASCII letter |
| PhpStrings.StrReplace | src/AddonInstaller.php:131-132 | `str_replace` with an empty search returns the subject; a replacement as long as the search keeps the length; deleting (an empty replacement) never lengthens the subject |
| PhpStrings.StrReplaceOneChar | src/AddonInstaller.php:132 | `str_replace('-', '_', s)` equals the pointwise map that turns every `-` into `_` and keeps all other characters |
| PhpStrings.StrReplaceDrawsFrom | src/AddonInstaller.php:131 | every character of a `str_replace` result comes from the subject or from the replacement, so deleting `addon-` adds no new characters |
| PhpStrings.StrReplaceNoOccurrence | src/AddonInstaller.php:131 | a subject in which a non-empty search string starts at no position comes back unchanged |
| PhpStrings.StrReplaceAbsent | src/AddonInstaller.php:131 | the special case of the previous row where the subject lacks even the first character of the search string |
| PhpStrings.StrReplaceLeading | src/AddonInstaller.php:131 | the replacement step of the definition, stated as a lemma for use in proofs: an occurrence at the start is replaced, and the scan continues after it |
| PhpStrings.StrReplaceSinglePass | src/AddonInstaller.php:131 | the scan is single-pass: deleting `addon-` from `addaddon-on-` leaves `addon-` |
| PhpStrings.Head | src/AddonInstaller.php:154-155 | `substr(s, 0, n)` is a prefix of `s` whose length is `n`, or the length of `s` when `s` is shorter |
| PhpStrings.HeadIsPrefixTest | src/AddonInstaller.php:154-155 | `substr(s, 0, strlen(p)) === p` holds exactly when `p` is a prefix of `s` |
| PhpStrings.FirstIndexOf | src/AddonInstaller.php:130 | the index returned holds the separator, and no earlier position does |
| PhpStrings.ExplodeOnce | src/AddonInstaller.php:130 | `explode('/', name, 2)` splits at the first `/`: the head has no `/`, and head, `/` and rest rebuild the name |
| PhpStrings.ExplodeOnceJoin | src/AddonInstaller.php:130 | splitting `head + "/" + tail`, where `head` has no `/`, gives back exactly `head` and `tail` |
| Installer.Supports | src/AddonInstaller.php:51-53 | the installer accepts exactly the type `whsuite-addon` |
| Installer.DirName | src/AddonInstaller.php:131-132 | the directory name derived from the part of a package name after the vendor contains no `-` and no upper-case ASCII letter |
| Installer.MarkerStripped | src/AddonInstaller.php:131 | a leading `addon-` has no effect on the directory name: `addon-x` and `x` give the same name for every `x`, whatever its case |
| Installer.InstallPath | src/AddonInstaller.php:128-135 | the path is `addonDir`, then `/`, then a name that contains no `-` and no upper-case ASCII letter |
| Installer.InstallPathIgnoresVendor | src/AddonInstaller.php:130-134 | for every vendor without `/`, the path of `vendor/rest` is `addonDir/` followed by the directory name derived from `rest` alone |
| Installer.DirNameExamples | src/AddonInstaller.php:131-132 | `addon-Some-Thing` gives the directory name `some_thing`, and `Widget-Core` gives `widget_core` (the lower-casing, marker and underscore facts for these literals are proof steps only) |
| Installer.InstallPathWithMarker | src/AddonInstaller.php:128-135 | `vendor/addon-Some-Thing` is installed in `app/addons/some_thing` |
| Installer.InstallPathWithoutMarker | src/AddonInstaller.php:128-135 | `vendor/Widget-Core` is installed in `app/addons/widget_core` |
| Installer.PathsIntersect | src/AddonInstaller.php:154-155 | the two-sided `substr` test holds exactly when one path is a string prefix of the other |
| Installer.NestedPathsIntersect | src/AddonInstaller.php:152-155 | two equal or nested directories always count as intersecting, in both argument orders |
| Installer.SiblingPathsIntersect | src/AddonInstaller.php:154-155 | `app/addons/foo` and `app/addons/foobar` count as intersecting although neither directory contains the other |
| Installer.UpdatePlan | src/AddonInstaller.php:148-166 | the update renames exactly when neither path is a prefix of the other, and always from the initial path to the target path; it removes the initial code exactly when the paths differ but one is a prefix of the other; its last call always leaves the target's code at the target path |
| Installer.UpdatePlanCases | src/AddonInstaller.php:148-166 | equal paths give only `Update(initial, target, path)`; differing paths where one is a prefix give `Remove(initial, initialPath)` then `Download(target, targetPath)`; all other paths give `Rename(initialPath, targetPath)` then `Update(initial, target, targetPath)` |
| Installer.RemoveFirst | src/AddonInstaller.php:119 | removing a package from the repository list cuts out exactly its first listing and keeps every other entry in order; a list that does not hold the package is unchanged; on a list without duplicates, the result has no duplicates and no longer lists the package |
| Installer.InstalledRepository.HasPackage | src/AddonInstaller.php:77 | the membership test holds exactly when the package is in the list |
| Installer.InstalledRepository.AddPackage | src/AddonInstaller.php:78 | adding appends the package to the end of the list, whether or not it is already listed |
| Installer.InstalledRepository.RemovePackage | src/AddonInstaller.php:99 | removing replaces the list by `RemoveFirst` of it: the first listing is cut out |
| Installer.AddonInstaller.constructor | src/AddonInstaller.php:37-43 | the base directory starts as `app/addons` and no collaborator has been called yet |
| Installer.AddonInstaller.IsInstalled | src/AddonInstaller.php:63-65 | a package counts as installed exactly when the repository lists it and its install path is readable; either condition failing alone gives false |
| Installer.AddonInstaller.InitializeAddonDir | src/AddonInstaller.php:178-181 | logs `EnsureDir` of the current base directory, then makes the resolved path the base directory |
| Installer.AddonInstaller.InstallCode | src/AddonInstaller.php:140-142 | appends exactly `Download(pkg, install path)` |
| Installer.AddonInstaller.RemoveCode | src/AddonInstaller.php:171-173 | appends exactly `Remove(pkg, install path)` |
| Installer.AddonInstaller.UpdateCode | src/AddonInstaller.php:148-166 | appends exactly the calls of `UpdatePlan` for the initial and target install paths |
| Installer.AddonInstaller.Install | src/AddonInstaller.php:73-80 | appends `EnsureDir` then `Download(pkg, path under the resolved directory)`, even when the package is already registered; a registered package leaves the repository list unchanged, and otherwise the package is appended; afterwards the package is listed, and a list without duplicates keeps none |
| Installer.AddonInstaller.Update | src/AddonInstaller.php:91-103 | an unregistered initial package fails with an invalid-argument error and changes nothing; otherwise it appends `EnsureDir` and the update plan; the repository list loses its first listing of `initial`, and `target` is appended unless it is still listed; on a list without duplicates, none appear, and the listed packages are exactly `target` and the old ones other than `initial` |
| Installer.AddonInstaller.Uninstall | src/AddonInstaller.php:113-120 | an unregistered package fails with an invalid-argument error and changes nothing; otherwise it appends exactly one `Remove(pkg, install path)`, and the first listing of `pkg` is dropped; on a list without duplicates, the listed packages are exactly the old ones other than `pkg` |

## Left out

- `AddonInstallerPlugin.activate` (src/AddonInstallerPlugin.php) is not modelled. It only builds an installer and registers it with the host's installation manager.
- The constructor's Composer and filesystem arguments are not modelled. The download manager and the filesystem helper appear only as entries in `log`.
- What the download manager and the filesystem helper do inside is not modelled. The model also assumes that every one of their calls succeeds. An exception from them would propagate to the caller, possibly after some calls have been made and before the repository changes.
- `realpath` is not evaluated: its answer is the parameter `resolved`. Its failure value `false` is not modelled.
- `is_readable` is not evaluated: its answers are the parameter `readable`.
- `DIRECTORY_SEPARATOR` (`DirSeparator`) is fixed to `/`. The Windows separator is not modelled.
- `strtolower` is modelled for ASCII only. Locale-dependent and multibyte behaviour is not modelled.
- Names without a `/` are excluded by the precondition `HasVendor`. For such names `explode` gives only one part, and the code reads an undefined index.
- The text of the exception messages is not modelled. The error records only the package it names.
- `InstalledRepository` stands for the host's repository. Only three of its operations are modelled: the membership test, `addPackage` (append) and `removePackage` (drop the first listing). They work on a list of `(name, version)` values. The repository's other operations, and the way it identifies packages beyond equal name and version, are not modelled.
